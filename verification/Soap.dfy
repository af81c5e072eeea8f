/**
  The SOAP request body that `simpleUPnPcommand2` writes, and its reading by the
  name/value parser.
 */
module Soap {
  import opened Options
  import opened Sequences
  import opened Text
  import opened Xml
  import opened XmlDocument
  import opened NameValue

  const BUFFER_SIZE := 2048
  const MARGIN := 100

  /** struct UPNParg; a missing value writes nothing. */
  datatype Arg = Arg(elt: string, val: Option<string>)

  const PROLOG := "<?xml version=\"1.0\"?>\r\n"
  const ENVELOPE_NS := "http://schemas.xmlsoap.org/soap/envelope/"
  const ENCODING_NS := "http://schemas.xmlsoap.org/soap/encoding/"

  /** The text before the arguments, as printf writes it. */
  function Head(action: string, service: string): string {
    PROLOG
    + ("<s:Envelope xmlns:s=\"" + ENVELOPE_NS + "\" s:encodingStyle=\"" + ENCODING_NS + "\">")
    + "<s:Body>"
    + ("<u:" + action + " xmlns:u=\"" + service + "\">")
  }

  function ArgText(a: Arg): string {
    "<" + a.elt + ">" + TextOrEmpty(a.val) + "</" + a.elt + ">"
  }

  function ArgsText(args: seq<Arg>): string {
    if args == [] then "" else ArgsText(args[..|args| - 1]) + ArgText(args[|args| - 1])
  }

  function Tail(action: string): string {
    "</u:" + action + "></s:Body></s:Envelope>\r\n"
  }

  function Body(action: string, service: string, args: seq<Arg>): string {
    Head(action, service) + ArgsText(args) + Tail(action)
  }

  const CLOSE := "></s:Body></s:Envelope>\r\n"

  // ----- the writer

  /** What is left in the buffer: nothing of use, or a text that is ended by NUL or not; past its
      last byte the behaviour is undefined. */
  datatype Written = GaveUp | Overrun | Left(text: string, ended: bool)

  /** The end of the body from what is in the buffer: the end tag of the action is copied without
      a check, the rest only as far as there is room. */
  function WriteTail(body: string, action: string): Written {
    var b := body + "</u:" + action;
    if |b| > BUFFER_SIZE then Overrun else Left(Cut(b + CLOSE, BUFFER_SIZE), |b + CLOSE| < BUFFER_SIZE)
  }

  /** The arguments and the end: the room is checked only where an argument starts. */
  function WriteArgs(body: string, args: seq<Arg>, action: string): Written
    decreases |args|
  {
    if args == [] then WriteTail(body, action)
    else if |body| + MARGIN >= BUFFER_SIZE then GaveUp
    else if |body + ArgText(args[0])| > BUFFER_SIZE then Overrun
    else WriteArgs(body + ArgText(args[0]), args[1..], action)
  }

  /** The whole body; without an argument list it is written in one bounded step. */
  function Write(action: string, service: string, args: Option<seq<Arg>>): Written {
    match args
    case None => Left(Cut(Body(action, service, []), BUFFER_SIZE - 1), true)
    case Some(list) => WriteArgs(Head(action, service), list, action)
  }

  /** A loop that copies a string to the end of the text, byte by byte and without a check. */
  method CopyString(body: string, s: string) returns (r: string)
    ensures r == body + s
  {
    r := body;
    var i := 0;
    while i < |s|
      invariant 0 <= i <= |s| && r == body + s[..i]
    {
      r := r + [s[i]];
      i := i + 1;
    }
    assert s[..i] == s;
  }

  method WriteArg(body: string, a: Arg) returns (r: string)
    ensures r == body + ArgText(a)
  {
    r := body + "<";
    r := CopyString(r, a.elt);
    r := r + ">";
    if a.val.Some? {
      r := CopyString(r, a.val.value);
    }
    r := r + "</";
    r := CopyString(r, a.elt);
    r := r + ">";
    assert r == body + ArgText(a);
  }

  method WriteBody(action: string, service: string, args: Option<seq<Arg>>) returns (r: Written)
    ensures r == Write(action, service, args)
  {
    hide Head, ArgText, Body;
    if args.None? {
      return Left(Cut(Body(action, service, []), BUFFER_SIZE - 1), true);
    }
    var list := args.value;
    var body := Head(action, service);
    var i := 0;
    assert list[0..] == list;
    while i < |list|
      invariant 0 <= i <= |list|
      invariant Write(action, service, args) == WriteArgs(body, list[i..], action)
    {
      assert list[i..][1..] == list[i + 1..];
      if |body| + MARGIN >= BUFFER_SIZE {
        return GaveUp;
      }
      body := WriteArg(body, list[i]);
      if |body| > BUFFER_SIZE {
        return Overrun;
      }
      i := i + 1;
    }
    body := body + "</u:";
    body := CopyString(body, action);
    if |body| > BUFFER_SIZE {
      return Overrun;
    }
    body := body + CLOSE;
    r := Left(Cut(body, BUFFER_SIZE), |body| < BUFFER_SIZE);
  }

  // ----- when the body is complete

  /** Some argument starts with less than the margin left. */
  ghost predicate TooLong(action: string, service: string, args: seq<Arg>) {
    exists k :: 0 <= k < |args| && |Head(action, service) + ArgsText(args[..k])| + MARGIN >= BUFFER_SIZE
  }

  /** The text after the arguments from `body` on. */
  function Rest(args: seq<Arg>, action: string): string {
    if args == [] then Tail(action) else ArgText(args[0]) + Rest(args[1..], action)
  }

  /** No argument starts with less than the margin left when `body` is there before them. */
  predicate StartsFit(body: string, args: seq<Arg>)
    decreases |args|
  {
    args == [] || (|body| + MARGIN < BUFFER_SIZE && StartsFit(body + ArgText(args[0]), args[1..]))
  }

  lemma TailWritten(body: string, action: string)
    ensures WriteTail(body, action) == Left(body + Tail(action), true) <==> |body + Tail(action)| < BUFFER_SIZE
    ensures WriteTail(body, action).Left? ==> WriteTail(body, action).text == Cut(body + Tail(action), BUFFER_SIZE)
  {
    assert body + Tail(action) == body + "</u:" + action + CLOSE;
  }

  lemma {:induction false} ArgsWritten(body: string, args: seq<Arg>, action: string)
    ensures WriteArgs(body, args, action) == Left(body + Rest(args, action), true)
       <==> StartsFit(body, args) && |body + Rest(args, action)| < BUFFER_SIZE
    decreases |args|
  {
    hide ArgText, Tail, WriteTail;
    if args == [] {
      TailWritten(body, action);
    } else {
      var b := body + ArgText(args[0]);
      assert body + Rest(args, action) == b + Rest(args[1..], action);
      ArgsWritten(b, args[1..], action);
    }
  }

  lemma {:induction false} RestText(before: seq<Arg>, args: seq<Arg>, action: string)
    ensures ArgsText(before) + Rest(args, action) == ArgsText(before + args) + Tail(action)
    decreases |args|
  {
    hide ArgText, Tail;
    if args == [] {
      assert before + args == before;
    } else {
      var b := before + [args[0]];
      assert b + args[1..] == before + args && b[..|before|] == before;
      RestText(b, args[1..], action);
    }
  }

  lemma {:induction false} StartsFitText(head: string, before: seq<Arg>, args: seq<Arg>)
    ensures StartsFit(head + ArgsText(before), args)
       <==> forall k :: |before| <= k < |before + args| ==> |head + ArgsText((before + args)[..k])| + MARGIN < BUFFER_SIZE
    decreases |args|
  {
    hide ArgText;
    if args != [] {
      var b, all := before + [args[0]], before + args;
      assert b + args[1..] == all && b[..|before|] == before && all[..|before|] == before;
      StartsFitText(head, b, args[1..]);
      assert head + ArgsText(before) + ArgText(args[0]) == head + ArgsText(b);
    }
  }

  /** The writer leaves the complete body, ended by NUL, if and only if no argument starts too late
      and the body is shorter than the buffer. */
  lemma BodyComplete(action: string, service: string, args: Option<seq<Arg>>)
    ensures var list := if args.Some? then args.value else [];
      Write(action, service, args) == Left(Body(action, service, list), true)
      <==> !TooLong(action, service, list) && |Body(action, service, list)| < BUFFER_SIZE
  {
    if args.Some? {
      ListComplete(action, service, args.value);
    }
  }

  lemma ListComplete(action: string, service: string, list: seq<Arg>)
    ensures WriteArgs(Head(action, service), list, action) == Left(Body(action, service, list), true)
       <==> !TooLong(action, service, list) && |Body(action, service, list)| < BUFFER_SIZE
  {
    hide Head, Body, TooLong, WriteArgs, Rest, StartsFit;
    ArgsWritten(Head(action, service), list, action);
    BodyText(action, service, list);
    TooLongStarts(action, service, list);
  }

  lemma BodyText(action: string, service: string, list: seq<Arg>)
    ensures Head(action, service) + Rest(list, action) == Body(action, service, list)
  {
    hide Head, Tail, ArgText;
    RestText([], list, action);
    assert [] + list == list && "" + Rest(list, action) == Rest(list, action);
    var head, args, tail := Head(action, service), ArgsText(list), Tail(action);
    assert head + (args + tail) == head + args + tail;
  }

  lemma TooLongStarts(action: string, service: string, list: seq<Arg>)
    ensures TooLong(action, service, list) <==> !StartsFit(Head(action, service), list)
  {
    hide Head, ArgText, StartsFit;
    var head := Head(action, service);
    StartsFitText(head, [], list);
    assert [] + list == list && head + "" == head;
  }

  /** A body of at most 1947 bytes is always written whole. */
  lemma ShortBodyWritten(action: string, service: string, list: seq<Arg>)
    requires |Body(action, service, list)| <= 1947
    ensures Write(action, service, Some(list)) == Left(Body(action, service, list), true)
    ensures list == [] ==> Write(action, service, None) == Left(Body(action, service, list), true)
  {
    hide Head, Tail, ArgText, Write;
    forall k | 0 <= k < |list| ensures |Head(action, service) + ArgsText(list[..k])| <= 1947 {
      ArgsTextLonger(list, k);
    }
    BodyComplete(action, service, Some(list));
    if list == [] {
      BodyComplete(action, service, None);
    }
  }

  /** From 1948 bytes on no argument is started. */
  lemma LateArgumentGivesUp(action: string, service: string, a: Arg, more: seq<Arg>)
    requires |Head(action, service)| >= 1948
    ensures Write(action, service, Some([a] + more)) == GaveUp
  {
    hide Head;
    assert ([a] + more) != [];
  }

  lemma {:induction false} ArgsTextLonger(args: seq<Arg>, k: nat)
    requires k <= |args|
    ensures |ArgsText(args[..k])| <= |ArgsText(args)|
    decreases |args|
  {
    hide ArgText;
    if k < |args| {
      ArgsTextLonger(args[..|args| - 1], k);
      assert args[..|args| - 1][..k] == args[..k];
    } else {
      assert args[..k] == args;
    }
  }

  /** An argument longer than the buffer is written past its end, although the check for its
      start passed. */
  lemma LongValueOverruns(action: string, service: string, a: Arg, more: seq<Arg>)
    requires |Head(action, service)| + MARGIN < BUFFER_SIZE && a.val.Some? && |a.val.value| >= BUFFER_SIZE
    ensures Write(action, service, Some([a] + more)) == Overrun
  {
    hide Head;
    assert |ArgText(a)| > BUFFER_SIZE;
  }

  // ----- the body as a document

  function QuotedAttr(name: string, value: string): Attr {
    Attr(" ", name, "", "", '"', value)
  }

  function ArgNode(a: Arg): Node {
    Elem("", a.elt, [], "", Leaf(TextOrEmpty(a.val), ""))
  }

  /** The arguments as children; there is at least one. */
  function ArgKids(args: seq<Arg>): Kids
    requires args != []
  {
    if |args| == 1 then Last(ArgNode(args[0]), "") else Cons(ArgNode(args[0]), "", ArgKids(args[1..]))
  }

  function ActionNode(action: string, service: string, args: seq<Arg>): Node {
    Elem("u", action, [QuotedAttr("xmlns:u", service)], "",
         if args == [] then Leaf("", "") else Children("", ArgKids(args), ""))
  }

  function BodyNode(action: string, service: string, args: seq<Arg>): Node {
    Elem("s", "Body", [], "", Children("", Last(ActionNode(action, service, args), ""), ""))
  }

  function Envelope(action: string, service: string, args: seq<Arg>): Node {
    Elem("s", "Envelope", [QuotedAttr("xmlns:s", ENVELOPE_NS), QuotedAttr("s:encodingStyle", ENCODING_NS)], "",
         Children("", Last(BodyNode(action, service, args), ""), ""))
  }

  lemma ArgPrinted(a: Arg)
    ensures Print(ArgNode(a)) == ArgText(a)
  {
    assert PrintAtts([]) == "";
  }

  function ArgsForward(args: seq<Arg>): string {
    if args == [] then "" else ArgText(args[0]) + ArgsForward(args[1..])
  }

  lemma {:induction false} ArgsForwardAppend(args: seq<Arg>, a: Arg)
    ensures ArgsForward(args + [a]) == ArgsForward(args) + ArgText(a)
    decreases args
  {
    hide ArgText;
    if args == [] {
      assert args + [a] == [a] && [a][1..] == [];
    } else {
      assert (args + [a])[1..] == args[1..] + [a];
      ArgsForwardAppend(args[1..], a);
    }
  }

  lemma {:induction false} ArgsTextForward(args: seq<Arg>)
    ensures ArgsText(args) == ArgsForward(args)
    decreases args
  {
    hide ArgText;
    if args != [] {
      var front, last := args[..|args| - 1], args[|args| - 1];
      ArgsTextForward(front);
      ArgsForwardAppend(front, last);
      assert front + [last] == args;
    }
  }

  lemma {:induction false} ArgKidsPrinted(args: seq<Arg>)
    requires args != []
    ensures PrintKids(ArgKids(args)) == ArgsForward(args)
    decreases args
  {
    hide Print, ArgNode, ArgText;
    ArgPrinted(args[0]);
    if |args| == 1 {
      assert args[1..] == [];
    } else {
      ArgKidsPrinted(args[1..]);
    }
  }

  function ActionTag(action: string, service: string): string {
    "<u:" + action + " xmlns:u=\"" + service + "\">"
  }

  lemma ActionTagPrinted(action: string, service: string, args: seq<Arg>)
    ensures TagText(ActionNode(action, service, args)) + ">" == ActionTag(action, service)
  {
    hide Attr.Print, ArgKids;
    var n := ActionNode(action, service, args);
    var att := QuotedAttr("xmlns:u", service);
    assert n.atts[1..] == [] && PrintAtts([]) == "";
    assert PrintAtts(n.atts) == att.Print();
    ServiceAttPrinted(service);
    assert QName(n) == "u:" + action;
    assert "<" + ("u:" + action) == "<u:" + action;
  }

  lemma ServiceAttPrinted(service: string)
    ensures QuotedAttr("xmlns:u", service).Print() == " xmlns:u=\"" + service + "\""
  {
    assert " " + "xmlns:u" + "" + "=" + "" + ['"'] == " xmlns:u=\"";
  }

  lemma ActionPrinted(action: string, service: string, args: seq<Arg>)
    ensures Print(ActionNode(action, service, args))
         == ActionTag(action, service) + ArgsForward(args) + ("</u:" + action + ">")
  {
    hide TagText, ActionTag, PrintKids, ArgsForward, QName;
    var n := ActionNode(action, service, args);
    ActionTagPrinted(action, service, args);
    ActionEnd(action, service, args);
    NodeText(n);
    if args == [] {
      NoArgs();
      assert PrintBody(n.body) == ">" + "";
    } else {
      ArgKidsPrinted(args);
      assert PrintBody(n.body) == ">" + ArgsForward(args);
    }
  }

  lemma NoArgs()
    ensures ArgsForward([]) == ""
  {
  }

  lemma ActionEnd(action: string, service: string, args: seq<Arg>)
    ensures EndTag(ActionNode(action, service, args)) == "</u:" + action + ">"
  {
    assert QName(ActionNode(action, service, args)) == "u:" + action;
    assert "</" + ("u:" + action) == "</u:" + action;
  }

  /** Print in terms of the tag text. */
  lemma NodeText(n: Node)
    ensures Print(n) == TagText(n) + PrintBody(n.body) + EndTag(n)
  {
    hide QName, PrintAtts, PrintBody, EndTag;
  }

  lemma BodyPrinted(action: string, service: string, args: seq<Arg>)
    ensures Print(BodyNode(action, service, args))
         == "<s:Body>" + Print(ActionNode(action, service, args)) + "</s:Body>"
  {
    hide Print, ActionNode;
    var n := BodyNode(action, service, args);
    NodeText(n);
    assert QName(n) == "s:Body" && PrintAtts(n.atts) == "";
    assert TagText(n) == "<s:Body" && EndTag(n) == "</s:Body>";
  }

  const ENVELOPE_TAG := "<s:Envelope xmlns:s=\"" + ENVELOPE_NS + "\" s:encodingStyle=\"" + ENCODING_NS + "\">"

  lemma NamespaceAttr(ns: string)
    ensures QuotedAttr("xmlns:s", ns).Print() == " xmlns:s=\"" + ns + "\""
  {
    assert " " + "xmlns:s" + "" + "=" + "" + ['"'] == " xmlns:s=\"";
  }

  lemma EncodingAttr(enc: string)
    ensures QuotedAttr("s:encodingStyle", enc).Print() == " s:encodingStyle=\"" + enc + "\""
  {
    assert " " + "s:encodingStyle" + "" + "=" + "" + ['"'] == " s:encodingStyle=\"";
  }

  lemma TwoAtts(a: Attr, b: Attr)
    ensures PrintAtts([a, b]) == a.Print() + b.Print()
  {
    hide Attr.Print;
    assert [a, b][1..] == [b] && [b][1..] == [];
    assert PrintAtts([b]) == b.Print() + "";
  }

  lemma EnvelopeAtts(ns: string, enc: string)
    ensures PrintAtts([QuotedAttr("xmlns:s", ns), QuotedAttr("s:encodingStyle", enc)])
         == " xmlns:s=\"" + ns + "\" s:encodingStyle=\"" + enc + "\""
  {
    hide Attr.Print, PrintAtts;
    NamespaceAttr(ns);
    EncodingAttr(enc);
    TwoAtts(QuotedAttr("xmlns:s", ns), QuotedAttr("s:encodingStyle", enc));
    assert "\"" + " s:encodingStyle=\"" == "\" s:encodingStyle=\"";
  }

  lemma EnvelopeTag(n: Node, ns: string, enc: string)
    requires QName(n) == "s:Envelope" && n.close == ""
    requires n.atts == [QuotedAttr("xmlns:s", ns), QuotedAttr("s:encodingStyle", enc)]
    ensures TagText(n) + ">" == "<s:Envelope xmlns:s=\"" + ns + "\" s:encodingStyle=\"" + enc + "\">"
  {
    hide PrintAtts, QName, QuotedAttr;
    EnvelopeAtts(ns, enc);
    assert "<" + "s:Envelope" == "<s:Envelope";
    assert "<s:Envelope" + (" xmlns:s=\"" + ns + "\" s:encodingStyle=\"" + enc + "\"") + ">"
        == "<s:Envelope xmlns:s=\"" + ns + "\" s:encodingStyle=\"" + enc + "\">";
  }

  lemma EnvelopePrinted(action: string, service: string, args: seq<Arg>)
    ensures Print(Envelope(action, service, args))
         == ENVELOPE_TAG + Print(BodyNode(action, service, args)) + "</s:Envelope>"
  {
    hide Print, BodyNode, TagText, PrintAtts;
    var n := Envelope(action, service, args);
    NodeText(n);
    assert QName(n) == "s:Envelope";
    EnvelopeTag(n, ENVELOPE_NS, ENCODING_NS);
    assert EndTag(n) == "</s:Envelope>";
    assert PrintBody(n.body) == ">" + Print(BodyNode(action, service, args));
  }

  /** Nesting written out flat. */
  lemma Flat(p: string, e: string, b: string, a: string, args: string, a': string, b': string, e': string, z: string)
    ensures p + (e + (b + (a + args + a') + b') + e') + z == (p + e + b + a) + args + (a' + (b' + (e' + z)))
  {
    var inner := a + args + a';
    var body := b + inner + b';
    assert b + inner + b' == b + a + args + (a' + b');
    assert e + body + e' == e + b + a + args + (a' + (b' + e'));
    assert p + (e + body + e') + z == p + e + b + a + args + (a' + (b' + (e' + z)));
  }

  lemma TailText(action: string)
    ensures Tail(action) == ("</u:" + action + ">") + ("</s:Body>" + ("</s:Envelope>" + "\r\n"))
  {
    assert ">" + ("</s:Body>" + ("</s:Envelope>" + "\r\n")) == "></s:Body></s:Envelope>\r\n";
  }

  /** What is written is the envelope document. */
  lemma BodyIsDocument(action: string, service: string, args: seq<Arg>)
    ensures Body(action, service, args) == PROLOG + Print(Envelope(action, service, args)) + "\r\n"
  {
    hide Print, Envelope, BodyNode, ActionNode, ActionTag, ArgsForward, ArgsText, Tail;
    EnvelopePrinted(action, service, args);
    BodyPrinted(action, service, args);
    ActionPrinted(action, service, args);
    ArgsTextForward(args);
    TailText(action);
    HeadText(action, service);
    Flat(PROLOG, ENVELOPE_TAG, "<s:Body>", ActionTag(action, service), ArgsForward(args),
         "</u:" + action + ">", "</s:Body>", "</s:Envelope>", "\r\n");
  }

  lemma HeadText(action: string, service: string)
    ensures Head(action, service) == PROLOG + ENVELOPE_TAG + "<s:Body>" + ActionTag(action, service)
  {
  }

  // ----- the round trip

  ghost predicate ValidRequest(action: string, service: string, args: seq<Arg>) {
    && ValidName(action) && '"' !in service
    && forall k :: 0 <= k < |args| ==> ValidName(args[k].elt) && Plain(TextOrEmpty(args[k].val))
  }

  lemma {:induction false} ArgKidsValid(args: seq<Arg>)
    requires args != []
    requires forall k :: 0 <= k < |args| ==> ValidName(args[k].elt) && Plain(TextOrEmpty(args[k].val))
    ensures ValidKids(ArgKids(args))
    decreases args
  {
    hide ValidName;
    assert Valid(ArgNode(args[0]));
    if |args| > 1 {
      ArgKidsValid(args[1..]);
    }
  }

  lemma AttrValid(name: string, value: string)
    requires ValidAttrName(name) && '"' !in value
    ensures QuotedAttr(name, value).Valid()
  {
  }

  ghost predicate ValidAttrName(name: string) {
    && name != "" && name[0] != '/' && name[0] != '>'
    && forall k :: 0 <= k < |name| ==> name[k] != '=' && !IsWhite(name[k])
  }

  lemma ActionValid(action: string, service: string, args: seq<Arg>)
    requires ValidRequest(action, service, args)
    ensures Valid(ActionNode(action, service, args))
  {
    AttrValid("xmlns:u", service);
    hide ValidKids, ArgKids, Attr.Valid;
    if args != [] { ArgKidsValid(args); }
  }

  lemma OnlyChildValid(parent: Node, child: Node)
    requires parent.body == Children("", Last(child, ""), "") && Valid(child)
    requires ValidName(parent.name) && (parent.prefix != "" ==> ValidName(parent.prefix)) && parent.close == ""
    requires forall k :: 0 <= k < |parent.atts| ==> parent.atts[k].Valid()
    ensures Valid(parent)
  {
    hide ValidName, Attr.Valid;
    assert ValidKids(Last(child, ""));
    assert ValidBody(parent.body);
  }

  lemma EnvelopeAttsValid()
    ensures QuotedAttr("xmlns:s", ENVELOPE_NS).Valid() && QuotedAttr("s:encodingStyle", ENCODING_NS).Valid()
  {
    hide Attr.Valid;
    AttrValid("xmlns:s", ENVELOPE_NS);
    AttrValid("s:encodingStyle", ENCODING_NS);
  }

  lemma EnvelopeValid(action: string, service: string, args: seq<Arg>)
    requires ValidRequest(action, service, args)
    ensures Valid(Envelope(action, service, args))
  {
    hide Valid, Attr.Valid, ActionNode, ValidRequest, ENVELOPE_NS, ENCODING_NS;
    ActionValid(action, service, args);
    EnvelopeAttsValid();
    OnlyChildValid(BodyNode(action, service, args), ActionNode(action, service, args));
    OnlyChildValid(Envelope(action, service, args), BodyNode(action, service, args));
  }

  function Entries(args: seq<Arg>): seq<NameValue> {
    if args == [] then [] else Entry(args[0].elt, TextOrEmpty(args[0].val)) + Entries(args[1..])
  }

  lemma {:induction false} ArgKidsLeaves(args: seq<Arg>)
    requires args != []
    ensures KidsLeaves(ArgKids(args)) == Entries(args) && !LastKid(ArgKids(args)).body.EmptyTag?
    decreases args
  {
    hide Entry;
    if |args| > 1 {
      ArgKidsLeaves(args[1..]);
    } else {
      assert args[1..] == [];
    }
  }

  /** The leaves of a request: its arguments, or the action alone. */
  lemma EnvelopeLeaves(action: string, service: string, args: seq<Arg>)
    ensures Leaves(Envelope(action, service, args)) == if args == [] then Entry(action, "") else Entries(args)
  {
    hide Entry, KidsLeaves, ArgKids, Entries;
    var n := ActionNode(action, service, args);
    if args != [] {
      ArgKidsLeaves(args);
      assert Leaves(n) == Entries(args) + [];
    }
    OnlyChild(BodyNode(action, service, args), n);
    OnlyChild(Envelope(action, service, args), BodyNode(action, service, args));
  }

  lemma OnlyChild(parent: Node, child: Node)
    requires parent.body == Children("", Last(child, ""), "") && !child.body.EmptyTag?
    ensures Leaves(parent) == Leaves(child)
  {
  }

  lemma {:induction false} EntriesAppend(args: seq<Arg>, a: Arg)
    ensures Entries(args + [a]) == Entries(args) + Entry(a.elt, TextOrEmpty(a.val))
    decreases args
  {
    hide Entry;
    if args == [] {
      assert args + [a] == [a] && [a][1..] == [];
    } else {
      assert (args + [a])[1..] == args[1..] + [a];
      EntriesAppend(args[1..], a);
    }
  }

  /** The value of the last argument of that name. */
  function LastArg(args: seq<Arg>, name: string): Option<string> {
    if args == [] then None
    else
      var last := args[|args| - 1];
      if last.elt == name then Some(Cut(TextOrEmpty(last.val), 127)) else LastArg(args[..|args| - 1], name)
  }

  ghost predicate ShortName(name: string) {
    |name| <= 63 && '\0' !in name
  }

  lemma {:induction false} LastEntryIsLastArg(args: seq<Arg>, name: string)
    requires forall k :: 0 <= k < |args| ==> ShortName(args[k].elt)
    requires name != NEW_PORT_LISTING
    ensures LastOf(Entries(args), name) == LastArg(args, name)
    decreases |args|
  {
    if args != [] {
      var front, last := args[..|args| - 1], args[|args| - 1];
      assert args == front + [last];
      EntriesAppend(front, last);
      LastEntryIsLastArg(front, name);
      LastOfAppend(Entries(front), last.elt, TextOrEmpty(last.val), name);
    }
  }

  lemma LastOfAppend(list: seq<NameValue>, elt: string, text: string, name: string)
    requires ShortName(elt) && name != NEW_PORT_LISTING
    ensures LastOf(list + Entry(elt, text), name) == if elt == name then Some(Cut(text, 127)) else LastOf(list, name)
  {
    assert CStr(elt) == elt;
    var e := Entry(elt, text);
    if e == [] {
      assert list + e == list;
    } else {
      assert (list + e)[..|list|] == list;
    }
  }

  lemma PrologWritten()
    ensures Prolog(PROLOG)
  {
  }

  /** What the reader of a text finds under a name, from any state. */
  function Found(s: State, text: string, name: string): Option<string> {
    Lookup(HandleAll(s.(list := [], portListing := None), Read(text, 0)).list, name)
  }

  /** Reading back what the writer left gives each argument's value cut to 127 characters, whenever
      no argument starts too late and the body is shorter than the buffer: looking a name up finds
      the last argument of that name. Without arguments the action is the only leaf. */
  lemma RequestRoundTrip(action: string, service: string, args: Option<seq<Arg>>, s: State, name: string)
    requires var list := if args.Some? then args.value else [];
      && ValidRequest(action, service, list) && (forall k :: 0 <= k < |list| ==> ShortName(list[k].elt))
      && !TooLong(action, service, list) && |Body(action, service, list)| < BUFFER_SIZE
    requires name != NEW_PORT_LISTING
    ensures var list := if args.Some? then args.value else [];
            var w := Write(action, service, args);
            w.Left? && w.ended && Found(s, w.text, name) ==
              if list == [] then LastOf(Entry(action, ""), name) else LastArg(list, name)
  {
    hide Body, Write, Found, ValidRequest, ShortName, LastArg, LastOf, Entry;
    BodyComplete(action, service, args);
    BodyRoundTrip(action, service, if args.Some? then args.value else [], s, name);
  }

  /** The same of the body itself, of any length. */
  lemma BodyRoundTrip(action: string, service: string, args: seq<Arg>, s: State, name: string)
    requires ValidRequest(action, service, args)
    requires forall k :: 0 <= k < |args| ==> ShortName(args[k].elt)
    requires name != NEW_PORT_LISTING
    ensures Found(s, Body(action, service, args), name) ==
              if args == [] then LastOf(Entry(action, ""), name) else LastArg(args, name)
  {
    hide Body, Read, HandleAll, Print, Valid, Leaves, Entries, LastOf, Lookup, LastArg, Reverse, ValidRequest, Prolog,
         Listing, ShortName;
    PrologWritten();
    EnvelopeValid(action, service, args);
    BodyIsDocument(action, service, args);
    EnvelopeLeaves(action, service, args);
    DocumentListed(s, PROLOG, Envelope(action, service, args), "\r\n");
    LookupIsLast(if args == [] then Entry(action, "") else Entries(args), name);
    LastEntryIsLastArg(args, name);
  }

  /** With distinct names, every argument comes back. */
  lemma {:induction false} EachArg(args: seq<Arg>, k: nat)
    requires k < |args|
    requires forall i, j :: 0 <= i < j < |args| ==> args[i].elt != args[j].elt
    ensures LastArg(args, args[k].elt) == Some(Cut(TextOrEmpty(args[k].val), 127))
    decreases |args|
  {
    if k < |args| - 1 {
      EachArg(args[..|args| - 1], k);
    }
  }
}
