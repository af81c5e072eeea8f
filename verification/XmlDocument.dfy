/**
  XML documents (sections 2.7 and 3.1 of XML 1.0), as they are written and as the
  event parser reads them.
 */
module XmlDocument {
  import opened Options
  import opened Text
  import opened Xml

  // ----- documents

  /** An attribute: white space, the name, '=' with white space around it, and a quoted value. */
  datatype Attr = Attr(white: string, name: string, beforeEq: string, afterEq: string, quote: char, value: string) {
    function Print(): string {
      white + name + beforeEq + "=" + afterEq + [quote] + value + [quote]
    }

    ghost predicate Valid() {
      && white != "" && AllWhite(white) && AllWhite(beforeEq) && AllWhite(afterEq)
      && name != "" && name[0] != '/' && name[0] != '>'
      && (forall k :: 0 <= k < |name| ==> name[k] != '=' && !IsWhite(name[k]))
      && (quote == '"' || quote == '\'') && quote !in value
    }
  }

  /** An element.  `close` is the white space before the '>' of the start tag, `endClose` that of
      the end tag. */
  datatype Node = Elem(prefix: string, name: string, atts: seq<Attr>, close: string, body: Body)

  datatype Body =
    | EmptyTag
    | Leaf(text: string, endClose: string)
    | CData(white: string, text: string, tail: string, endClose: string)
    | Children(lead: string, kids: Kids, endClose: string)

  /** Child elements, each with the text after it. */
  datatype Kids = Last(node: Node, tail: string) | Cons(node: Node, tail: string, rest: Kids)

  ghost predicate AllWhite(s: string) {
    forall k :: 0 <= k < |s| ==> IsWhite(s[k])
  }

  function QName(n: Node): string {
    if n.prefix == "" then n.name else n.prefix + ":" + n.name
  }

  function PrintAtts(atts: seq<Attr>): string {
    if atts == [] then "" else atts[0].Print() + PrintAtts(atts[1..])
  }

  function EndTag(n: Node): string {
    if n.body.EmptyTag? then "" else "</" + QName(n) + n.body.endClose + ">"
  }

  function Print(n: Node): string {
    "<" + QName(n) + PrintAtts(n.atts) + n.close + PrintBody(n.body) + EndTag(n)
  }

  function PrintBody(b: Body): string {
    match b
    case EmptyTag => "/>"
    case Leaf(text, _) => ">" + text
    case CData(white, text, tail, _) => ">" + white + "<![CDATA[" + text + "]]>" + tail
    case Children(lead, kids, _) => ">" + lead + PrintKids(kids)
  }

  function PrintKids(k: Kids): string {
    match k
    case Last(node, tail) => Print(node) + tail
    case Cons(node, tail, rest) => Print(node) + tail + PrintKids(rest)
  }

  ghost predicate ValidName(s: string) {
    && s != "" && s[0] != '?' && s[0] != '!'
    && forall k :: 0 <= k < |s| ==> !EndsName(s[k]) && s[k] != ':'
  }

  /** Character data: no markup. */
  ghost predicate Plain(s: string) {
    '<' !in s
  }

  /** The first "]]>" of the section is the one that ends it. */
  ghost predicate ValidCData(t: string) {
    forall k :: 0 <= k < |t| ==> !Looks(t + "]]>", k, "]]>")
  }

  ghost predicate Valid(n: Node) {
    && ValidName(n.name) && (n.prefix != "" ==> ValidName(n.prefix))
    && (forall k :: 0 <= k < |n.atts| ==> n.atts[k].Valid())
    && AllWhite(n.close)
    && ValidBody(n.body)
  }

  ghost predicate ValidBody(b: Body) {
    && (!b.EmptyTag? ==> AllWhite(b.endClose))
    && match b
       case EmptyTag => true
       case Leaf(text, _) => Plain(text)
       case CData(white, text, tail, _) => AllWhite(white) && ValidCData(text) && Plain(tail)
       case Children(lead, kids, _) => Plain(lead) && ValidKids(kids)
  }

  ghost predicate ValidKids(k: Kids) {
    Valid(k.node) && Plain(k.tail) && (k.Cons? ==> ValidKids(k.rest))
  }

  // ----- what a document says

  /** A callback with its text. */
  datatype Call =
    | Open(name: string)
    | Attribute(name: string, value: string)
    | Data(text: string)
    | Close(name: string)

  function DataCall(text: string): seq<Call> {
    if text == "" then [] else [Data(text)]
  }

  function AttCalls(atts: seq<Attr>): seq<Call> {
    if atts == [] then [] else [Attribute(atts[0].name, atts[0].value)] + AttCalls(atts[1..])
  }

  /** The calls of an element in document order: the start without the namespace prefix, data for
      leaves only, the end as it is written, and no end for an empty-element tag. */
  function Calls(n: Node): seq<Call> {
    [Open(n.name)] + AttCalls(n.atts) + BodyCalls(n.body) + EndCalls(n)
  }

  function EndCalls(n: Node): seq<Call> {
    if n.body.EmptyTag? then [] else [Close(QName(n) + n.body.endClose)]
  }

  function BodyCalls(b: Body): seq<Call> {
    match b
    case EmptyTag => []
    case Leaf(text, _) => DataCall(text)
    case CData(_, text, _, _) => DataCall(text)
    case Children(_, kids, _) => KidsCalls(kids)
  }

  function KidsCalls(k: Kids): seq<Call> {
    Calls(k.node) + if k.Cons? then KidsCalls(k.rest) else []
  }

  // ----- the text of events

  function Slice(buf: string, at: nat, len: nat): string {
    if at + len <= |buf| then buf[at..at + len] else ""
  }

  function CallOf(buf: string, e: Event): Call {
    match e
    case Start(at, len) => Open(Slice(buf, at, len))
    case Att(at, len, valueAt, valueLen) => Attribute(Slice(buf, at, len), Slice(buf, valueAt, valueLen))
    case Chars(at, len) => Data(Slice(buf, at, len))
    case End(at, len) => Close(Slice(buf, at, len))
  }

  function CallsOf(buf: string, evs: seq<Event>): seq<Call> {
    if evs == [] then [] else [CallOf(buf, evs[0])] + CallsOf(buf, evs[1..])
  }

  lemma {:induction false} CallsOfConcat(buf: string, a: seq<Event>, b: seq<Event>)
    ensures CallsOf(buf, a + b) == CallsOf(buf, a) + CallsOf(buf, b)
    decreases a
  {
    if a == [] {
      assert a + b == b;
    } else {
      assert (a + b)[1..] == a[1..] + b;
      CallsOfConcat(buf, a[1..], b);
    }
  }

  /** What the parser calls from index `p` on. */
  function Read(buf: string, p: nat): seq<Call>
    requires p <= |buf|
  {
    CallsOf(buf, Parse(buf, p))
  }

  lemma ReadTurn(buf: string, p: nat)
    requires p + 1 < |buf|
    ensures var t := OneTurn(buf, p);
            Read(buf, p) == CallsOf(buf, t.evs) + if t.next.None? then [] else Read(buf, t.next.value)
  {
    hide OneTurn, InOrder;
    var t := OneTurn(buf, p);
    if t.next.Some? {
      CallsOfConcat(buf, t.evs, Parse(buf, t.next.value));
    }
  }

  lemma PlainTurn(buf: string, i: nat)
    requires i < |buf| && (buf[i] == '<' ==> i + 1 < |buf| && buf[i + 1] == '?')
    ensures Read(buf, i) == Read(buf, i + 1)
  {
    hide Read;
    if i + 1 < |buf| {
      assert OneTurn(buf, i) == Turn([], Some(i + 1));
      ReadTurn(buf, i);
    } else {
      ReadEnd(buf);
      ReadLast(buf);
    }
  }

  lemma ReadEnd(buf: string)
    ensures Read(buf, |buf|) == []
  {
  }

  lemma ReadLast(buf: string)
    requires buf != ""
    ensures Read(buf, |buf| - 1) == []
  {
  }

  /** Text without tags is stepped over; processing instructions are such text. */
  lemma {:induction false} SkipPlain(buf: string, i: nat, j: nat)
    requires i <= j <= |buf|
    requires forall k :: i <= k < j && buf[k] == '<' ==> k + 1 < |buf| && buf[k + 1] == '?'
    ensures Read(buf, i) == Read(buf, j)
    decreases j - i
  {
    hide Read;
    if i < j {
      PlainTurn(buf, i);
      SkipPlain(buf, i + 1, j);
    }
  }

  // ----- the cursor loops on written text

  lemma {:induction false} FindCharAt(buf: string, p: nat, e: nat, c: char)
    requires p <= e < |buf| && buf[e] == c && forall k :: p <= k < e ==> buf[k] != c
    ensures FindChar(buf, p, c) == Some(e)
    decreases e - p
  {
    if p < e { FindCharAt(buf, p + 1, e, c); }
  }

  lemma {:induction false} SkipWhiteAt(buf: string, p: nat, e: nat)
    requires p <= e < |buf| && !IsWhite(buf[e]) && forall k :: p <= k < e ==> IsWhite(buf[k])
    ensures SkipWhite(buf, p) == Some(e)
    decreases e - p
  {
    if p < e { SkipWhiteAt(buf, p + 1, e); }
  }

  lemma {:induction false} AttNameEndAt(buf: string, p: nat, e: nat)
    requires p <= e < |buf| && (buf[e] == '=' || IsWhite(buf[e]))
    requires forall k :: p <= k < e ==> buf[k] != '=' && !IsWhite(buf[k])
    ensures AttNameEnd(buf, p) == Some(e)
    decreases e - p
  {
    if p < e { AttNameEndAt(buf, p + 1, e); }
  }

  lemma {:induction false} PastEqualsAt(buf: string, p: nat, e: nat)
    requires p <= e < |buf| && buf[e] == '=' && forall k :: p <= k < e ==> buf[k] != '='
    ensures PastEquals(buf, p) == Some(e + 1)
    decreases e - p
  {
    if p < e { PastEqualsAt(buf, p + 1, e); }
  }

  lemma {:induction false} ElementNameAt(buf: string, p: nat, e: nat, start: nat)
    requires start <= p <= e < |buf| && EndsName(buf[e])
    requires forall k :: p <= k < e ==> !EndsName(buf[k])
    requires forall k :: p < k < e ==> buf[k] != ':'
    ensures ElementName(buf, p, start) == Some((e, start))
    decreases e - p
  {
    if p < e { ElementNameAt(buf, p + 1, e, start); }
  }

  lemma {:induction false} ElementNamePrefix(buf: string, p: nat, colon: nat, start: nat)
    requires start <= p < colon && colon < |buf| && buf[colon] == ':'
    requires forall k :: p <= k < colon ==> !EndsName(buf[k]) && buf[k] != ':'
    ensures ElementName(buf, p, start) == ElementName(buf, colon + 1, colon + 1)
    decreases colon - p
  {
    if p + 1 < colon { ElementNamePrefix(buf, p + 1, colon, start); }
  }

  lemma {:induction false} TextEndAt(buf: string, p: nat, e: nat)
    requires p <= e && e + 1 < |buf| && buf[e] == '<' && forall k :: p <= k < e ==> buf[k] != '<'
    ensures TextEnd(buf, p) == Some(e)
    decreases e - p
  {
    if p < e { TextEndAt(buf, p + 1, e); }
  }

  lemma {:induction false} CDataEndAt(buf: string, p: nat, e: nat)
    requires p <= e && e + 3 < |buf| && Looks(buf, e, "]]>")
    requires forall k :: p <= k < e ==> !Looks(buf, k, "]]>")
    ensures CDataEnd(buf, p) == Some(e)
    decreases e - p
  {
    hide Looks;
    if p < e { CDataEndAt(buf, p + 1, e); }
  }

  // ----- attributes

  lemma {:induction false} AttsWhite(buf: string, p: nat, q: nat)
    requires p <= q <= |buf| && forall k :: p <= k < q ==> IsWhite(buf[k])
    ensures Atts(buf, p) == Atts(buf, q)
    decreases q - p
  {
    hide OneAtt, InOrder;
    if p < q { AttsWhite(buf, p + 1, q); }
  }

  /** Where the parts of a written attribute stand. */
  lemma AttrParts(buf: string, p: nat, a: Attr)
    requires Reads(buf, p, a.Print())
    ensures Reads(buf, p, a.white) && Reads(buf, p + |a.white|, a.name)
    ensures var n := p + |a.white| + |a.name|;
            Reads(buf, n, a.beforeEq) && Reads(buf, n + |a.beforeEq|, "=")
    ensures var v := p + |a.white| + |a.name| + |a.beforeEq| + 1;
            Reads(buf, v, a.afterEq) && Reads(buf, v + |a.afterEq|, [a.quote])
            && Reads(buf, v + |a.afterEq| + 1, a.value) && Reads(buf, v + |a.afterEq| + 1 + |a.value|, [a.quote])
  {
    hide Reads;
    var s1 := a.white + a.name;
    var s2 := s1 + a.beforeEq;
    var s3 := s2 + "=";
    var s4 := s3 + a.afterEq;
    var s5 := s4 + [a.quote];
    var s6 := s5 + a.value;
    assert a.Print() == s6 + [a.quote];
    ReadsSplit(buf, p, s6, [a.quote]);
    ReadsSplit(buf, p, s5, a.value);
    ReadsSplit(buf, p, s4, [a.quote]);
    ReadsSplit(buf, p, s3, a.afterEq);
    ReadsSplit(buf, p, s2, "=");
    ReadsSplit(buf, p, s1, a.beforeEq);
    ReadsSplit(buf, p, a.white, a.name);
  }

  lemma AttNameParsed(buf: string, q: nat, a: Attr)
    requires a.Valid() && Reads(buf, q, a.name)
    requires var n := q + |a.name|; Reads(buf, n, a.beforeEq) && Reads(buf, n + |a.beforeEq|, "=")
    ensures AttNameEnd(buf, q) == Some(q + |a.name|)
    ensures PastEquals(buf, q + |a.name|) == Some(q + |a.name| + |a.beforeEq| + 1)
  {
    hide AttNameEnd, PastEquals, Reads, AllWhite, IsWhite;
    EqualsParsed(buf, q + |a.name|, a);
    ReadsAt(buf, q, a.name);
    AttNameEndAt(buf, q, q + |a.name|);
  }

  lemma EqualsParsed(buf: string, n: nat, a: Attr)
    requires a.Valid() && Reads(buf, n, a.beforeEq) && Reads(buf, n + |a.beforeEq|, "=")
    ensures n < |buf| && (buf[n] == '=' || IsWhite(buf[n]))
    ensures PastEquals(buf, n) == Some(n + |a.beforeEq| + 1)
  {
    hide PastEquals, Reads;
    var e := n + |a.beforeEq|;
    ReadsInside(buf, n, a.beforeEq);
    ReadsInside(buf, e, "=");
    ReadsAt(buf, n, a.beforeEq);
    ReadsAt(buf, e, "=");
    assert buf[e] == "="[0] == '=';
    PastEqualsAt(buf, n, e);
  }

  lemma AttValueParsed(buf: string, v: nat, a: Attr)
    requires a.Valid() && Reads(buf, v, a.afterEq) && Reads(buf, v + |a.afterEq|, [a.quote])
    requires var w := v + |a.afterEq| + 1; Reads(buf, w, a.value) && Reads(buf, w + |a.value|, [a.quote])
    ensures AttValue(buf, v) == Some((v + |a.afterEq| + 1, |a.value|))
  {
    hide Reads, SkipWhite, FindChar, UnquotedEnd;
    var w := v + |a.afterEq| + 1;
    assert [a.quote][0] == a.quote;
    ReadsAt(buf, v + |a.afterEq|, [a.quote]);
    ReadsAt(buf, w + |a.value|, [a.quote]);
    ReadsInside(buf, w + |a.value|, [a.quote]);
    assert SkipWhite(buf, v) == Some(w - 1) by {
      ReadsAt(buf, v, a.afterEq);
      SkipWhiteAt(buf, v, w - 1);
    }
    assert FindChar(buf, w, a.quote) == Some(w + |a.value|) by {
      ReadsAt(buf, w, a.value);
      FindCharAt(buf, w, w + |a.value|, a.quote);
    }
  }

  function AttrEvent(p: nat, a: Attr): Event {
    Att(p + |a.white|, |a.name|, p + |a.white| + |a.name| + |a.beforeEq| + 1 + |a.afterEq| + 1, |a.value|)
  }

  lemma AttrLength(p: nat, a: Attr)
    ensures AttrEvent(p, a).Stop() + 1 == p + |a.Print()|
  {
  }

  lemma AttrSlices(buf: string, p: nat, a: Attr)
    requires Reads(buf, p, a.Print())
    ensures CallOf(buf, AttrEvent(p, a)) == Attribute(a.name, a.value)
    ensures p + |a.Print()| <= |buf|
  {
    hide Attr.Print;
    AttrParts(buf, p, a);
  }

  lemma AttrStart(buf: string, p: nat, a: Attr)
    requires a.Valid() && Reads(buf, p, a.Print())
    ensures p + |a.white| < |buf| && !EndsName(buf[p + |a.white|])
    ensures forall k :: p <= k < p + |a.white| ==> IsWhite(buf[k])
  {
    hide Attr.Print, Reads;
    AttrParts(buf, p, a);
    ReadsAt(buf, p, a.white);
    ReadsAt(buf, p + |a.white|, a.name);
    ReadsInside(buf, p + |a.white|, a.name);
    assert buf[p + |a.white|] == a.name[0];
  }

  lemma OneAttParsed(buf: string, p: nat, a: Attr)
    requires a.Valid() && Reads(buf, p, a.Print()) && p + |a.white| < |buf|
    ensures OneAtt(buf, p + |a.white|) == Some(AttrEvent(p, a))
  {
    hide AttNameEnd, PastEquals, AttValue, Attr.Print, Attr.Valid, Reads;
    AttrParts(buf, p, a);
    var q := p + |a.white|;
    AttNameParsed(buf, q, a);
    AttValueParsed(buf, q + |a.name| + |a.beforeEq| + 1, a);
  }

  lemma AttsStep(buf: string, q: nat)
    requires q < |buf| && !EndsName(buf[q]) && OneAtt(buf, q).Some?
    ensures var ev := OneAtt(buf, q).value;
            Atts(buf, q).1 == Atts(buf, ev.Stop() + 1).1
            && CallsOf(buf, Atts(buf, q).0) == [CallOf(buf, ev)] + CallsOf(buf, Atts(buf, ev.Stop() + 1).0)
  {
    hide OneAtt, InOrder, CallOf;
    var ev := OneAtt(buf, q).value;
    var rest := Atts(buf, ev.Stop() + 1).0;
    assert Atts(buf, q).0 == [ev] + rest;
    assert ([ev] + rest)[1..] == rest;
  }

  /** A written attribute is read as its name and value. */
  lemma AttrParsed(buf: string, p: nat, a: Attr)
    requires a.Valid() && Reads(buf, p, a.Print())
    ensures p + |a.Print()| <= |buf|
    ensures Atts(buf, p).1 == Atts(buf, p + |a.Print()|).1
    ensures CallsOf(buf, Atts(buf, p).0) == [Attribute(a.name, a.value)] + CallsOf(buf, Atts(buf, p + |a.Print()|).0)
  {
    hide OneAtt, Atts, CallsOf, CallOf, AttrEvent, Attr.Print, Attr.Valid, Reads, EndsName, Event.Stop;
    AttrStart(buf, p, a);
    OneAttParsed(buf, p, a);
    AttrLength(p, a);
    AttrSlices(buf, p, a);
    AttsWhite(buf, p, p + |a.white|);
    AttsStep(buf, p + |a.white|);
  }

  lemma {:induction false} AttsParsed(buf: string, p: nat, atts: seq<Attr>)
    requires (forall k :: 0 <= k < |atts| ==> atts[k].Valid()) && Reads(buf, p, PrintAtts(atts))
    ensures p + |PrintAtts(atts)| <= |buf|
    ensures Atts(buf, p).1 == Atts(buf, p + |PrintAtts(atts)|).1
    ensures CallsOf(buf, Atts(buf, p).0) == AttCalls(atts) + CallsOf(buf, Atts(buf, p + |PrintAtts(atts)|).0)
    decreases atts
  {
    hide Reads, Attr.Valid, Attr.Print, PrintAtts, Atts, AttCalls, CallsOf;
    ReadsInside(buf, p, PrintAtts(atts));
    AttsParts(buf, p, atts);
    AttCallsConcat(atts, CallsOf(buf, Atts(buf, p + |PrintAtts(atts)|).0));
    if atts != [] {
      AttrParsed(buf, p, atts[0]);
      AttsParsed(buf, p + |atts[0].Print()|, atts[1..]);
    }
  }

  lemma AttsParts(buf: string, p: nat, atts: seq<Attr>)
    requires Reads(buf, p, PrintAtts(atts))
    ensures atts == [] ==> |PrintAtts(atts)| == 0
    ensures atts != [] ==> && Reads(buf, p, atts[0].Print()) && Reads(buf, p + |atts[0].Print()|, PrintAtts(atts[1..]))
                           && |PrintAtts(atts)| == |atts[0].Print()| + |PrintAtts(atts[1..])|
  {
    hide Reads, Attr.Print;
    if atts != [] {
      ReadsSplit(buf, p, atts[0].Print(), PrintAtts(atts[1..]));
    }
  }

  lemma AttCallsConcat(atts: seq<Attr>, rest: seq<Call>)
    ensures atts == [] ==> AttCalls(atts) + rest == rest
    ensures atts != [] ==>
      AttCalls(atts) + rest == [Attribute(atts[0].name, atts[0].value)] + (AttCalls(atts[1..]) + rest)
  {
    if atts == [] {
      assert [] + rest == rest;
    } else {
      var first, more := [Attribute(atts[0].name, atts[0].value)], AttCalls(atts[1..]);
      assert AttCalls(atts) == first + more;
      assert first + more + rest == first + (more + rest);
    }
  }

  lemma ReadsInside(s: string, i: nat, t: string)
    requires Reads(s, i, t)
    ensures i + |t| <= |s|
  {
  }

  // ----- tags

  lemma PlainNameParsed(buf: string, p: nat, name: string)
    requires ValidName(name) && Reads(buf, p, name)
    requires p + |name| < |buf| && EndsName(buf[p + |name|])
    ensures ElementName(buf, p, p) == Some((p + |name|, p))
    ensures buf[p] != '?' && buf[p] != '!' && !EndsName(buf[p])
  {
    ReadsAt(buf, p, name);
    hide Reads;
    assert buf[p] == name[0];
    ElementNameAt(buf, p, p + |name|, p);
  }

  lemma PrefixParsed(buf: string, p: nat, prefix: string)
    requires ValidName(prefix) && Reads(buf, p, prefix) && Reads(buf, p + |prefix|, ":")
    ensures p + |prefix| + 1 <= |buf|
    ensures ElementName(buf, p, p) == ElementName(buf, p + |prefix| + 1, p + |prefix| + 1)
    ensures buf[p] != '?' && buf[p] != '!' && !EndsName(buf[p])
  {
    ReadsAt(buf, p, prefix);
    ReadsAt(buf, p + |prefix|, ":");
    hide Reads;
    assert buf[p] == prefix[0];
    ElementNamePrefix(buf, p, p + |prefix|, p);
  }

  lemma NameParts(buf: string, p: nat, n: Node)
    requires Reads(buf, p, QName(n))
    ensures n.prefix == "" ==> Reads(buf, p, n.name) && |QName(n)| == |n.name|
    ensures n.prefix != "" ==> && Reads(buf, p, n.prefix) && Reads(buf, p + |n.prefix|, ":")
                               && Reads(buf, p + |n.prefix| + 1, n.name) && |QName(n)| == |n.prefix| + 1 + |n.name|
  {
    hide Reads;
    if n.prefix != "" {
      ReadsSplit(buf, p, n.prefix + ":", n.name);
      ReadsSplit(buf, p, n.prefix, ":");
    }
  }

  /** The name of a tag: the part after the prefix, up to the byte that ends the name. */
  lemma NameParsed(buf: string, p: nat, n: Node)
    requires ValidName(n.name) && (n.prefix != "" ==> ValidName(n.prefix))
    requires Reads(buf, p, QName(n))
    requires p + |QName(n)| < |buf| && EndsName(buf[p + |QName(n)|])
    ensures ElementName(buf, p, p) == Some((p + |QName(n)|, p + |QName(n)| - |n.name|))
    ensures buf[p] != '?' && buf[p] != '!' && !EndsName(buf[p])
  {
    hide ElementName, Reads, ValidName, EndsName, QName;
    NameParts(buf, p, n);
    if n.prefix == "" {
      PlainNameParsed(buf, p, n.name);
    } else {
      PrefixParsed(buf, p, n.prefix);
      PlainNameParsed(buf, p + |n.prefix| + 1, n.name);
    }
  }

  lemma NameText(buf: string, p: nat, n: Node)
    requires Reads(buf, p, QName(n)) && ValidName(n.name)
    ensures CallOf(buf, Start(p + |QName(n)| - |n.name|, |n.name|)) == Open(n.name)
  {
    if n.prefix != "" {
      ReadsSplit(buf, p, n.prefix + ":", n.name);
    }
  }

  lemma NameStarts(buf: string, p: nat, n: Node)
    requires Reads(buf, p, QName(n)) && ValidName(n.name) && (n.prefix != "" ==> ValidName(n.prefix))
    ensures p < |buf| && buf[p] != '?' && buf[p] != '!' && buf[p] != '/'
    ensures 0 < |n.name| <= |QName(n)|
  {
    ReadsAt(buf, p, QName(n));
    assert QName(n)[0] == if n.prefix != "" then n.prefix[0] else n.name[0];
  }

  /** Up to the byte that ends the start tag. */
  function TagText(n: Node): string {
    "<" + QName(n) + PrintAtts(n.atts) + n.close
  }

  lemma TagParts(buf: string, p: nat, n: Node)
    requires Reads(buf, p, TagText(n))
    ensures |TagText(n)| == 1 + |QName(n)| + |PrintAtts(n.atts)| + |n.close|
    ensures Reads(buf, p, "<") && Reads(buf, p + 1, QName(n))
    ensures Reads(buf, p + 1 + |QName(n)|, PrintAtts(n.atts))
    ensures Reads(buf, p + 1 + |QName(n)| + |PrintAtts(n.atts)|, n.close)
  {
    hide Reads, QName, PrintAtts;
    ReadsSplit(buf, p, "<" + QName(n) + PrintAtts(n.atts), n.close);
    ReadsSplit(buf, p, "<" + QName(n), PrintAtts(n.atts));
    ReadsSplit(buf, p, "<", QName(n));
  }

  /** The byte after the name ends it. */
  lemma NameEnds(buf: string, q: nat, n: Node)
    requires (forall k :: 0 <= k < |n.atts| ==> n.atts[k].Valid()) && AllWhite(n.close)
    requires Reads(buf, q, PrintAtts(n.atts)) && Reads(buf, q + |PrintAtts(n.atts)|, n.close)
    requires var r := q + |PrintAtts(n.atts)| + |n.close|; r < |buf| && (buf[r] == '/' || buf[r] == '>')
    ensures EndsName(buf[q])
  {
    if n.atts != [] {
      ReadsSplit(buf, q, n.atts[0].Print(), PrintAtts(n.atts[1..]));
      AttrParts(buf, q, n.atts[0]);
      ReadsAt(buf, q, n.atts[0].white);
      assert buf[q] == n.atts[0].white[0];
    } else if n.close != "" {
      ReadsAt(buf, q, n.close);
      assert buf[q] == n.close[0];
    }
  }

  lemma AttsEnd(buf: string, r: nat)
    requires r < |buf| && (buf[r] == '/' || buf[r] == '>')
    ensures Atts(buf, r) == ([], Some(r))
  {
  }

  /** The attributes of a tag, up to the byte that ends it. */
  lemma TagAtts(buf: string, q: nat, n: Node)
    requires (forall k :: 0 <= k < |n.atts| ==> n.atts[k].Valid()) && AllWhite(n.close)
    requires Reads(buf, q, PrintAtts(n.atts)) && Reads(buf, q + |PrintAtts(n.atts)|, n.close)
    requires var r := q + |PrintAtts(n.atts)| + |n.close|; r < |buf| && (buf[r] == '/' || buf[r] == '>')
    ensures q <= |buf| && Atts(buf, q).1 == Some(q + |PrintAtts(n.atts)| + |n.close|)
    ensures CallsOf(buf, Atts(buf, q).0) == AttCalls(n.atts)
  {
    hide Attr.Valid, Attr.Print, PrintAtts, AttCalls, Atts;
    var c := q + |PrintAtts(n.atts)|;
    AttsParsed(buf, q, n.atts);
    ReadsAt(buf, c, n.close);
    AttsWhite(buf, c, c + |n.close|);
    AttsEnd(buf, c + |n.close|);
    assert AttCalls(n.atts) + CallsOf(buf, []) == AttCalls(n.atts);
  }

  /** What follows a start tag whose last byte is at `r`. */
  function AfterTag(buf: string, r: nat): Turn
    requires r < |buf|
  {
    if buf[r] == '/' then Turn([], Some(r)) else ContentTurn(buf, r)
  }

  lemma StartTurnCalls(buf: string, start: nat, q: nat)
    requires start < q < |buf| && Atts(buf, q).1.Some?
    ensures var after := AfterTag(buf, Atts(buf, q).1.value);
            var t := StartTurn(buf, start, q);
            t.next == after.next
            && CallsOf(buf, t.evs) == [CallOf(buf, Start(start, q - start))] + CallsOf(buf, Atts(buf, q).0)
                                      + CallsOf(buf, after.evs)
  {
    hide ContentTurn, Atts, InOrder, CallOf;
    var ev, atts := Start(start, q - start), Atts(buf, q).0;
    var after := AfterTag(buf, Atts(buf, q).1.value);
    assert StartTurn(buf, start, q).evs == [ev] + atts + after.evs;
    CallsOfConcat(buf, [ev] + atts, after.evs);
    CallsOfConcat(buf, [ev], atts);
    assert [ev][1..] == [];
    assert CallsOf(buf, [ev]) == [CallOf(buf, ev)];
  }

  /** The turn that reads the start tag of an element and what follows it up to the next tag. */
  lemma StartTagParsed(buf: string, p: nat, n: Node)
    requires Valid(n) && Reads(buf, p, TagText(n))
    requires var r := p + |TagText(n)|; r < |buf| && (buf[r] == '/' || buf[r] == '>')
    ensures p + 1 < |buf| && buf[p] == '<' && buf[p + 1] != '?' && buf[p + 1] != '!' && buf[p + 1] != '/'
    ensures var after := AfterTag(buf, p + |TagText(n)|);
            OneTurn(buf, p).next == after.next
            && CallsOf(buf, OneTurn(buf, p).evs) == [Open(n.name)] + AttCalls(n.atts) + CallsOf(buf, after.evs)
  {
    hide Reads, QName, PrintAtts, AttCalls, TagText, AfterTag, OneTurn, StartTurn, ElementName, Atts, InOrder, CallOf,
         CallsOf, ValidBody, ValidName, AllWhite, Attr.Valid, EndsName;
    var q := p + 1 + |QName(n)|;
    TagParts(buf, p, n);
    TagNameParsed(buf, p, n);
    TagAtts(buf, q, n);
    TagTurn(buf, p, q - |n.name|, q);
    StartTurnCalls(buf, q - |n.name|, q);
  }

  /** The name after the first byte of a tag. */
  lemma TagNameParsed(buf: string, p: nat, n: Node)
    requires Valid(n) && Reads(buf, p, TagText(n))
    requires var r := p + |TagText(n)|; r < |buf| && (buf[r] == '/' || buf[r] == '>')
    ensures p + 1 < |buf| && buf[p] == '<' && buf[p + 1] != '?' && buf[p + 1] != '!' && buf[p + 1] != '/'
    ensures 0 < |n.name| <= |QName(n)| && p + 1 + |QName(n)| < |buf|
    ensures var q := p + 1 + |QName(n)|;
      && ElementName(buf, p + 1, p + 1) == Some((q, q - |n.name|))
      && CallOf(buf, Start(q - |n.name|, |n.name|)) == Open(n.name)
  {
    hide Reads, QName, PrintAtts, TagText, ElementName, CallOf, ValidBody, ValidName, AllWhite, Attr.Valid, EndsName;
    TagParts(buf, p, n);
    ReadsAt(buf, p, "<");
    NameStarts(buf, p + 1, n);
    NameEnds(buf, p + 1 + |QName(n)|, n);
    NameParsed(buf, p + 1, n);
    NameText(buf, p + 1, n);
  }

  lemma TagTurn(buf: string, p: nat, start: nat, q: nat)
    requires p + 1 < |buf| && buf[p] == '<' && buf[p + 1] != '?'
    requires ElementName(buf, p + 1, p + 1) == Some((q, start)) && start < q < |buf|
    ensures OneTurn(buf, p) == StartTurn(buf, start, q)
  {
    hide StartTurn, ElementName, InOrder;
  }

  /** The name in an end tag has no '>'. */
  lemma EndNameText(n: Node)
    requires ValidName(n.name) && (n.prefix != "" ==> ValidName(n.prefix))
    requires !n.body.EmptyTag? && AllWhite(n.body.endClose)
    ensures '>' !in QName(n) + n.body.endClose
  {
    assert '>' !in n.name && '>' !in n.prefix && '>' !in n.body.endClose;
  }

  lemma EndTagParts(buf: string, p: nat, n: Node)
    requires !n.body.EmptyTag? && Reads(buf, p, EndTag(n))
    ensures var name := QName(n) + n.body.endClose;
            Reads(buf, p, "</") && Reads(buf, p + 2, name) && Reads(buf, p + 2 + |name|, ">")
  {
    hide Reads, QName;
    assert EndTag(n) == "</" + (QName(n) + n.body.endClose) + ">";
    ReadsSplit(buf, p, "</" + (QName(n) + n.body.endClose), ">");
    ReadsSplit(buf, p, "</", QName(n) + n.body.endClose);
  }

  lemma EndTurnParsed(buf: string, p: nat, name: string)
    requires Reads(buf, p, "</") && Reads(buf, p + 2, name) && Reads(buf, p + 2 + |name|, ">")
    requires '>' !in name
    ensures p + 1 < |buf| && buf[p] == '<' && buf[p + 1] == '/'
    ensures OneTurn(buf, p) == Turn([End(p + 2, |name|)], Some(p + 2 + |name| + 1))
    ensures CallOf(buf, End(p + 2, |name|)) == Close(name)
  {
    hide FindChar, InOrder, Atts;
    var e := p + 2 + |name|;
    ReadsAt(buf, p, "</");
    ReadsAt(buf, p + 2, name);
    ReadsAt(buf, e, ">");
    FindCharAt(buf, p + 2, e, '>');
    assert ElementName(buf, p + 1, p + 1) == Some((p + 1, p + 1));
    assert OneTurn(buf, p) == EndTurn(buf, p + 1);
  }

  /** The turn that reads an end tag. */
  lemma EndTagParsed(buf: string, p: nat, n: Node)
    requires Valid(n) && !n.body.EmptyTag? && Reads(buf, p, EndTag(n))
    ensures p + |EndTag(n)| <= |buf|
    ensures Read(buf, p) == [Close(QName(n) + n.body.endClose)] + Read(buf, p + |EndTag(n)|)
  {
    hide OneTurn, QName, EndTag, Valid, Reads, CallOf, CallsOf, Read;
    var name := QName(n) + n.body.endClose;
    EndTagLength(n);
    EndTagParts(buf, p, n);
    EndNameValid(n);
    EndTurnParsed(buf, p, name);
    ReadTurn(buf, p);
    ReadsInside(buf, p, EndTag(n));
    OneCall(buf, End(p + 2, |name|));
  }

  lemma EndTagLength(n: Node)
    requires !n.body.EmptyTag?
    ensures |EndTag(n)| == |QName(n) + n.body.endClose| + 3
  {
  }

  lemma EndNameValid(n: Node)
    requires Valid(n) && !n.body.EmptyTag?
    ensures '>' !in QName(n) + n.body.endClose
  {
    EndNameText(n);
  }

  // ----- content

  lemma {:induction false} SkipWhiteUpTo(buf: string, p: nat, e: nat)
    requires p <= e < |buf| && !IsWhite(buf[e])
    ensures SkipWhite(buf, p).Some? && p <= SkipWhite(buf, p).value <= e
    decreases e - p
  {
    if p < e { SkipWhiteUpTo(buf, p + 1, e); }
  }

  /** Text up to the next tag: data when that tag is an end tag. */
  lemma TextParsed(buf: string, r: nat, text: string)
    requires Reads(buf, r + 1, text) && Plain(text)
    requires var e := r + 1 + |text|; e + 1 < |buf| && buf[e] == '<' && buf[e + 1] != '!'
    ensures var e := r + 1 + |text|;
            ContentTurn(buf, r) == Turn(if text != "" && buf[e + 1] == '/' then [Chars(r + 1, |text|)] else [], Some(e))
    ensures CallOf(buf, Chars(r + 1, |text|)) == Data(text)
  {
    hide TextEnd, SkipWhite, InOrder, CDataTurn;
    var d, e := r + 1, r + 1 + |text|;
    ReadsAt(buf, d, text);
    SkipWhiteUpTo(buf, d, e);
    var w := SkipWhite(buf, d).value;
    assert !Looks(buf, w, "<![CDATA[") by {
      assert At(buf, w + 0) != "<![CDATA["[0] || At(buf, w + 1) != "<![CDATA["[1];
    }
    TextEndAt(buf, w, e);
  }

  lemma LooksReads(buf: string, p: nat, t: string)
    requires Reads(buf, p, t)
    ensures Looks(buf, p, t)
  {
    ReadsAt(buf, p, t);
  }

  /** No "]]>" starts inside the text of a valid CDATA section. */
  lemma CDataClear(buf: string, p: nat, text: string)
    requires ValidCData(text) && Reads(buf, p, text + "]]>")
    ensures forall k :: p <= k < p + |text| ==> !Looks(buf, k, "]]>")
  {
    var t := text + "]]>";
    ReadsAt(buf, p, t);
    forall k | p <= k < p + |text| ensures !Looks(buf, k, "]]>") {
      assert !Looks(t, k - p, "]]>");
      var j :| 0 <= j < 3 && At(t, k - p + j) != "]]>"[j];
      assert At(buf, k + j) == t[k - p + j];
    }
  }

  function CDataText(b: Body): string
    requires b.CData?
  {
    b.white + "<![CDATA[" + b.text + "]]>" + b.tail
  }

  lemma CDataParts(buf: string, d: nat, b: Body)
    requires b.CData? && Reads(buf, d, CDataText(b))
    ensures var c := d + |b.white| + 9;
            Reads(buf, d, b.white) && Reads(buf, c - 9, "<![CDATA[") && Reads(buf, c, b.text + "]]>")
            && Reads(buf, c, b.text) && Reads(buf, c + |b.text|, "]]>") && Reads(buf, c + |b.text| + 3, b.tail)
  {
    hide Reads;
    var s1 := b.white + "<![CDATA[";
    assert CDataText(b) == s1 + (b.text + "]]>") + b.tail;
    ReadsSplit(buf, d, s1 + (b.text + "]]>"), b.tail);
    ReadsSplit(buf, d, s1, b.text + "]]>");
    ReadsSplit(buf, d, b.white, "<![CDATA[");
    ReadsSplit(buf, d + |s1|, b.text, "]]>");
  }

  lemma CDataTurnParsed(buf: string, c: nat, text: string, tail: string)
    requires 9 <= c && Looks(buf, c - 9, "<![CDATA[") && ValidCData(text) && Plain(tail)
    requires Reads(buf, c, text + "]]>") && Reads(buf, c + |text|, "]]>") && Reads(buf, c + |text| + 3, tail)
    requires var e := c + |text| + 3 + |tail|; e < |buf| && buf[e] == '<'
    ensures CDataTurn(buf, c) == Turn(if text != "" then [Chars(c, |text|)] else [], Some(c + |text| + 3 + |tail|))
  {
    hide Looks, FindChar, CDataEnd, InOrder;
    var close, e := c + |text|, c + |text| + 3 + |tail|;
    CDataClear(buf, c, text);
    LooksReads(buf, close, "]]>");
    CDataEndAt(buf, c, close);
    ReadsAt(buf, close, "]]>");
    ReadsAt(buf, close + 3, tail);
    FindCharAt(buf, close, e, '<');
  }

  lemma CDataParsed(buf: string, r: nat, b: Body)
    requires b.CData? && ValidBody(b) && Reads(buf, r + 1, CDataText(b))
    requires var e := r + 1 + |CDataText(b)|; e < |buf| && buf[e] == '<'
    ensures var c, e := r + 1 + |b.white| + 9, r + 1 + |CDataText(b)|;
            ContentTurn(buf, r) == Turn(if b.text != "" then [Chars(c, |b.text|)] else [], Some(e))
            && CallOf(buf, Chars(c, |b.text|)) == Data(b.text)
  {
    hide SkipWhite, CDataTurn, TextEnd, Looks, ValidCData, CDataText, Reads, CallOf;
    CDataLength(b);
    var d := r + 1;
    var c := d + |b.white| + 9;
    CDataParts(buf, d, b);
    LooksReads(buf, c - 9, "<![CDATA[");
    assert SkipWhite(buf, d) == Some(c - 9) by {
      ReadsAt(buf, d, b.white);
      ReadsAt(buf, c - 9, "<![CDATA[");
      SkipWhiteAt(buf, d, c - 9);
    }
    CDataTurnParsed(buf, c, b.text, b.tail);
    DataSlice(buf, c, b.text);
  }

  lemma CDataLength(b: Body)
    requires b.CData?
    ensures |CDataText(b)| == |b.white| + 9 + |b.text| + 3 + |b.tail|
  {
  }

  lemma DataSlice(buf: string, c: nat, text: string)
    requires Reads(buf, c, text)
    ensures CallOf(buf, Chars(c, |text|)) == Data(text)
  {
  }

  // ----- elements

  lemma NodeParts(buf: string, p: nat, n: Node)
    requires Reads(buf, p, Print(n))
    ensures |Print(n)| == |TagText(n)| + |PrintBody(n.body)| + |EndTag(n)| && p + |Print(n)| <= |buf|
    ensures Reads(buf, p, TagText(n))
    ensures Reads(buf, p + |TagText(n)|, PrintBody(n.body))
    ensures Reads(buf, p + |TagText(n)| + |PrintBody(n.body)|, EndTag(n))
  {
    hide PrintBody, EndTag, QName, PrintAtts;
    ReadsSplit(buf, p, TagText(n) + PrintBody(n.body), EndTag(n));
    ReadsSplit(buf, p, TagText(n), PrintBody(n.body));
  }

  lemma BodyStarts(buf: string, r: nat, b: Body)
    requires Reads(buf, r, PrintBody(b))
    ensures r < |buf| && buf[r] == if b.EmptyTag? then '/' else '>'
  {
    var t := PrintBody(b);
    ReadsAt(buf, r, t);
    assert t[0] == if b.EmptyTag? then '/' else '>';
  }

  /** An element starts like a start tag. */
  lemma NodeStarts(buf: string, p: nat, n: Node)
    requires Valid(n) && Reads(buf, p, Print(n))
    ensures p + 1 < |buf| && buf[p] == '<' && buf[p + 1] != '!' && buf[p + 1] != '/'
  {
    hide PrintBody, EndTag, TagText, OneTurn, Valid, Print, Reads;
    NodeParts(buf, p, n);
    BodyStarts(buf, p + |TagText(n)|, n.body);
    StartTagParsed(buf, p, n);
  }

  lemma EndTagStarts(buf: string, p: nat, n: Node)
    requires !n.body.EmptyTag? && Reads(buf, p, EndTag(n))
    ensures p + 1 < |buf| && buf[p] == '<' && buf[p + 1] == '/'
  {
    EndTagParts(buf, p, n);
    ReadsAt(buf, p, "</");
  }

  /** The calls from an element's start tag, in terms of the content turn and what follows it. */
  lemma ReadFromTag(buf: string, p: nat, n: Node)
    requires Valid(n) && Reads(buf, p, TagText(n))
    requires var r := p + |TagText(n)|; r < |buf| && (buf[r] == '/' || buf[r] == '>')
    requires AfterTag(buf, p + |TagText(n)|).next.Some? && AfterTag(buf, p + |TagText(n)|).next.value <= |buf|
    ensures var after := AfterTag(buf, p + |TagText(n)|);
            p <= |buf| && Read(buf, p) == [Open(n.name)] + AttCalls(n.atts)
                                          + CallsOf(buf, after.evs) + Read(buf, after.next.value)
  {
    hide Reads, TagText, Valid, AfterTag, OneTurn, CallsOf, AttCalls, Read;
    StartTagParsed(buf, p, n);
    ReadTurn(buf, p);
  }

  lemma NoCalls(buf: string, evs: seq<Event>)
    requires evs == []
    ensures CallsOf(buf, evs) == []
  {
  }

  lemma OneCall(buf: string, ev: Event)
    ensures CallsOf(buf, [ev]) == [CallOf(buf, ev)]
  {
    assert [ev][1..] == [];
  }

  /** The content of a leaf. */
  lemma LeafTextParsed(buf: string, r: nat, b: Body)
    requires b.Leaf? && ValidBody(b) && Reads(buf, r, PrintBody(b))
    requires var e := r + |PrintBody(b)|; e + 1 < |buf| && buf[e] == '<' && buf[e + 1] == '/'
    ensures ContentTurn(buf, r).next == Some(r + |PrintBody(b)|)
    ensures CallsOf(buf, ContentTurn(buf, r).evs) == DataCall(b.text)
  {
    hide ContentTurn, CallOf, Reads;
    ReadsSplit(buf, r, ">", b.text);
    TextParsed(buf, r, b.text);
    OneCall(buf, Chars(r + 1, |b.text|));
  }

  lemma CDataPrinted(b: Body)
    requires b.CData?
    ensures PrintBody(b) == ">" + CDataText(b)
  {
  }

  lemma LeafCDataParsed(buf: string, r: nat, b: Body)
    requires b.CData? && ValidBody(b) && Reads(buf, r, PrintBody(b))
    requires var e := r + |PrintBody(b)|; e + 1 < |buf| && buf[e] == '<' && buf[e + 1] == '/'
    ensures ContentTurn(buf, r).next == Some(r + |PrintBody(b)|)
    ensures CallsOf(buf, ContentTurn(buf, r).evs) == DataCall(b.text)
  {
    hide ContentTurn, CallOf, CallsOf, Reads, CDataText, PrintBody, ValidBody;
    CDataPrinted(b);
    NoCalls(buf, []);
    ReadsSplit(buf, r, ">", CDataText(b));
    CDataParsed(buf, r, b);
    OneCall(buf, Chars(r + 1 + |b.white| + 9, |b.text|));
  }

  lemma LeafParsed(buf: string, r: nat, n: Node)
    requires (n.body.Leaf? || n.body.CData?) && ValidBody(n.body)
    requires Reads(buf, r, PrintBody(n.body)) && Reads(buf, r + |PrintBody(n.body)|, EndTag(n))
    ensures r < |buf| && AfterTag(buf, r).next == Some(r + |PrintBody(n.body)|)
    ensures CallsOf(buf, AfterTag(buf, r).evs) == DataCall(n.body.text)
  {
    hide ContentTurn, CallsOf, Reads, EndTag, PrintBody, ValidBody;
    BodyStarts(buf, r, n.body);
    EndTagStarts(buf, r + |PrintBody(n.body)|, n);
    if n.body.Leaf? {
      LeafTextParsed(buf, r, n.body);
    } else {
      LeafCDataParsed(buf, r, n.body);
    }
  }

  /** The text before the first child says nothing. */
  lemma LeadParsed(buf: string, r: nat, b: Body)
    requires b.Children? && ValidBody(b) && Reads(buf, r, PrintBody(b))
    ensures r < |buf| && AfterTag(buf, r) == Turn([], Some(r + 1 + |b.lead|))
    ensures Reads(buf, r + 1 + |b.lead|, PrintKids(b.kids))
  {
    hide ContentTurn, Reads, InOrder, Print, PrintKids, PrintBody, Valid, ValidKids, Plain;
    BodyStarts(buf, r, b);
    LeadParts(buf, r, b);
    KidsStart(buf, r + 1 + |b.lead|, b.kids);
    TextParsed(buf, r, b.lead);
  }

  lemma LeadParts(buf: string, r: nat, b: Body)
    requires b.Children? && Reads(buf, r, PrintBody(b))
    ensures Reads(buf, r + 1, b.lead) && Reads(buf, r + 1 + |b.lead|, PrintKids(b.kids))
  {
    hide Reads, PrintKids;
    ReadsSplit(buf, r, ">" + b.lead, PrintKids(b.kids));
    ReadsSplit(buf, r, ">", b.lead);
  }

  lemma KidsStart(buf: string, p: nat, k: Kids)
    requires ValidKids(k) && Reads(buf, p, PrintKids(k))
    ensures p + 1 < |buf| && buf[p] == '<' && buf[p + 1] != '!' && buf[p + 1] != '/'
  {
    KidsParts(buf, p, k);
    NodeStarts(buf, p, k.node);
  }

  lemma KidsParts(buf: string, p: nat, k: Kids)
    requires Reads(buf, p, PrintKids(k))
    ensures Reads(buf, p, Print(k.node)) && Reads(buf, p + |Print(k.node)|, k.tail)
    ensures k.Cons? ==> Reads(buf, p + |Print(k.node)| + |k.tail|, PrintKids(k.rest))
    ensures |PrintKids(k)| == |Print(k.node)| + |k.tail| + if k.Cons? then |PrintKids(k.rest)| else 0
  {
    hide Reads, Print;
    match k
    case Last(node, tail) => ReadsSplit(buf, p, Print(node), tail);
    case Cons(node, tail, rest) =>
      ReadsSplit(buf, p, Print(node) + tail, PrintKids(rest));
      ReadsSplit(buf, p, Print(node), tail);
  }

  /** Reading a written element calls back exactly its calls, then reads on after it. */
  lemma {:induction false} NodeParsed(buf: string, p: nat, n: Node)
    requires Valid(n) && Reads(buf, p, Print(n))
    ensures p + |Print(n)| <= |buf|
    ensures Read(buf, p) == Calls(n) + Read(buf, p + |Print(n)|)
    decreases n, 1
  {
    hide Reads, Read, TagText, EndTag, Print, PrintBody, QName, AfterTag, Valid, AttCalls, BodyCalls, CallsOf;
    var r := p + |TagText(n)|;
    NodeParts(buf, p, n);
    BodyStarts(buf, r, n.body);
    BodyParsed(buf, r, n);
    ReadFromTag(buf, p, n);
    var e := r + |PrintBody(n.body)|;
    var after, open := AfterTag(buf, r), [Open(n.name)] + AttCalls(n.atts);
    assert open + CallsOf(buf, after.evs) + Read(buf, after.next.value) == open + (BodyCalls(n.body) + Read(buf, e));
    if n.body.EmptyTag? {
      EmptyTagParsed(buf, r, n);
    } else {
      EndTagParsed(buf, e, n);
    }
    assert open + (BodyCalls(n.body) + (EndCalls(n) + Read(buf, p + |Print(n)|))) == Calls(n) + Read(buf, p + |Print(n)|);
  }

  /** What follows a start tag, up to the end tag. */
  lemma {:induction false} BodyParsed(buf: string, r: nat, n: Node)
    requires Valid(n) && Reads(buf, r, PrintBody(n.body)) && Reads(buf, r + |PrintBody(n.body)|, EndTag(n))
    ensures r < |buf| && AfterTag(buf, r).next.Some? && r + |PrintBody(n.body)| <= |buf|
    ensures AfterTag(buf, r).next.value <= |buf|
    ensures CallsOf(buf, AfterTag(buf, r).evs) + Read(buf, AfterTag(buf, r).next.value)
         == BodyCalls(n.body) + Read(buf, r + |PrintBody(n.body)|)
    decreases n, 0
  {
    hide Reads, Read, EndTag, PrintBody, PrintKids, AfterTag, ValidName, Attr.Valid, ValidKids, KidsCalls, CallsOf;
    ReadsInside(buf, r, PrintBody(n.body));
    BodyStarts(buf, r, n.body);
    NoCalls(buf, []);
    match n.body
    case EmptyTag => EmptyTagParsed(buf, r, n);
    case Children(lead, kids, _) =>
      LeadParsed(buf, r, n.body);
      BodyLength(n.body);
      KidsParsed(buf, r + 1 + |lead|, kids);
    case _ => LeafParsed(buf, r, n);
  }

  lemma BodyLength(b: Body)
    requires b.Children?
    ensures |PrintBody(b)| == 1 + |b.lead| + |PrintKids(b.kids)|
  {
    hide PrintKids;
  }

  lemma EmptyTagParsed(buf: string, r: nat, n: Node)
    requires n.body.EmptyTag? && Reads(buf, r, PrintBody(n.body))
    ensures r + 2 <= |buf| && AfterTag(buf, r) == Turn([], Some(r)) && Read(buf, r) == Read(buf, r + 2)
    ensures |EndTag(n)| == 0 && |PrintBody(n.body)| == 2
  {
    hide Read;
    ReadsAt(buf, r, "/>");
    SkipPlain(buf, r, r + 2);
  }

  lemma {:induction false} KidsParsed(buf: string, p: nat, k: Kids)
    requires ValidKids(k) && Reads(buf, p, PrintKids(k))
    ensures p + |PrintKids(k)| <= |buf|
    ensures Read(buf, p) == KidsCalls(k) + Read(buf, p + |PrintKids(k)|)
    decreases k, 0
  {
    hide Reads, Read, Print, Valid, Calls;
    KidsParts(buf, p, k);
    NodeParsed(buf, p, k.node);
    var q := p + |Print(k.node)|;
    ReadsAt(buf, q, k.tail);
    ReadsInside(buf, q, k.tail);
    SkipPlain(buf, q, q + |k.tail|);
    if k.Cons? {
      KidsParsed(buf, q + |k.tail|, k.rest);
    }
  }

  // ----- documents

  /** Text and processing instructions before the root element. */
  ghost predicate Prolog(s: string) {
    forall k :: 0 <= k < |s| && s[k] == '<' ==> k + 1 < |s| && s[k + 1] == '?'
  }

  /** Parsing a written document calls back exactly what the document says. */
  lemma DocumentParsed(prolog: string, root: Node, epilog: string)
    requires Prolog(prolog) && Valid(root) && Plain(epilog)
    ensures Read(prolog + Print(root) + epilog, 0) == Calls(root)
  {
    hide Read, Valid, Print, Calls, Reads;
    var buf := prolog + Print(root) + epilog;
    ReadsWhole(buf);
    ReadsSplit(buf, 0, prolog + Print(root), epilog);
    ReadsSplit(buf, 0, prolog, Print(root));
    ReadsAt(buf, 0, prolog);
    ReadsAt(buf, |prolog| + |Print(root)|, epilog);
    SkipPlain(buf, 0, |prolog|);
    NodeParsed(buf, |prolog|, root);
    SkipPlain(buf, |prolog| + |Print(root)|, |buf|);
    ReadEnd(buf);
    assert Calls(root) + [] == Calls(root);
  }
}
