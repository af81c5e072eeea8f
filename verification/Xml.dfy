/**
  The event parser of minixml: `parseatt`, `parseelt` and `parsexml`.

  The callbacks only receive slices of the buffer and never touch the parser, so the
  parser is a function from the buffer to the list of events.  Bytes past the end of
  the buffer read as NUL.
 */
module Xml {

  import opened Options
  import opened Text

  /** A callback with the offset and length of its text; `Att` has the name and the value. */
  datatype Event =
    | Start(at: nat, len: nat)
    | Att(at: nat, len: nat, valueAt: nat, valueLen: nat)
    | Chars(at: nat, len: nat)
    | End(at: nat, len: nat)
  {
    function Stop(): nat {
      if Att? then valueAt + valueLen else at + len
    }

    ghost predicate Within(lo: nat, hi: nat) {
      lo <= at && (Att? ==> at + len <= valueAt) && Stop() <= hi
    }
  }

  /** The slices lie between `lo` and `hi`, one after the other. */
  ghost predicate InOrder(evs: seq<Event>, lo: nat, hi: nat) {
    evs == [] || (evs[0].Within(lo, hi) && InOrder(evs[1..], evs[0].Stop(), hi))
  }

  lemma {:induction false} InOrderWider(evs: seq<Event>, lo: nat, lo': nat, hi: nat)
    requires lo' <= lo && InOrder(evs, lo, hi)
    ensures InOrder(evs, lo', hi)
  {
  }

  lemma {:induction false} InOrderConcat(a: seq<Event>, b: seq<Event>, lo: nat, mid: nat, hi: nat)
    requires lo <= mid <= hi && InOrder(a, lo, mid) && InOrder(b, mid, hi)
    ensures InOrder(a + b, lo, hi)
    decreases a
  {
    if a == [] {
      assert a + b == b;
      InOrderWider(b, mid, lo, hi);
    } else {
      assert (a + b)[1..] == a[1..] + b;
      InOrderConcat(a[1..], b, a[0].Stop(), mid, hi);
    }
  }

  predicate IsWhite(c: char) {
    c == ' ' || c == '\t' || c == '\r' || c == '\n'
  }

  predicate EndsName(c: char) {
    IsWhite(c) || c == '>' || c == '/'
  }

  /** memcmp (buf + i, t, |t|) == 0 */
  predicate Looks(buf: string, i: nat, t: string) {
    forall k :: 0 <= k < |t| ==> At(buf, i + k) == t[k]
  }

  // ----- the loops that move the cursor; None means the buffer ended

  /** To the end of an attribute name. */
  function AttNameEnd(buf: string, p: nat): (r: Option<nat>)
    requires p <= |buf|
    ensures r.Some? ==> p <= r.value < |buf| && (At(buf, r.value) == '=' || IsWhite(At(buf, r.value)))
    decreases |buf| - p
  {
    if At(buf, p) == '=' || IsWhite(At(buf, p)) then Some(p)
    else if p + 1 >= |buf| then None
    else AttNameEnd(buf, p + 1)
  }

  /** Past the next '='. */
  function PastEquals(buf: string, p: nat): (r: Option<nat>)
    requires p < |buf|
    ensures r.Some? ==> p < r.value <= |buf|
    decreases |buf| - p
  {
    if buf[p] == '=' then Some(p + 1) else if p + 1 >= |buf| then None else PastEquals(buf, p + 1)
  }

  function SkipWhite(buf: string, p: nat): (r: Option<nat>)
    requires p <= |buf|
    ensures r.Some? ==> p <= r.value <= |buf| && (p < |buf| ==> r.value < |buf|) && !IsWhite(At(buf, r.value))
    decreases |buf| - p
  {
    if !IsWhite(At(buf, p)) then Some(p) else if p + 1 >= |buf| then None else SkipWhite(buf, p + 1)
  }

  /** To the next `c`. */
  function FindChar(buf: string, p: nat, c: char): (r: Option<nat>)
    requires p < |buf|
    ensures r.Some? ==> p <= r.value < |buf| && buf[r.value] == c
    decreases |buf| - p
  {
    if buf[p] == c then Some(p) else if p + 1 >= |buf| then None else FindChar(buf, p + 1, c)
  }

  function UnquotedEnd(buf: string, p: nat): (r: Option<nat>)
    requires p <= |buf|
    ensures r.Some? ==> p <= r.value < |buf| && EndsName(buf[r.value])
    decreases |buf| - p
  {
    if EndsName(At(buf, p)) then Some(p) else if p + 1 >= |buf| then None else UnquotedEnd(buf, p + 1)
  }

  /** To the '<' after character data, which must not be the last byte reached. */
  function TextEnd(buf: string, p: nat): (r: Option<nat>)
    requires p < |buf|
    ensures r.Some? ==> p <= r.value < |buf| && buf[r.value] == '<'
    decreases |buf| - p
  {
    if buf[p] == '<' then Some(p) else if p + 2 >= |buf| then None else TextEnd(buf, p + 1)
  }

  /** To the "]]>" after a CDATA section. */
  function CDataEnd(buf: string, p: nat): (r: Option<nat>)
    ensures r.Some? ==> p <= r.value && Looks(buf, r.value, "]]>") && (p < r.value ==> r.value + 3 < |buf|)
    decreases if p < |buf| then |buf| - p else 0
  {
    if Looks(buf, p, "]]>") then Some(p) else if p + 4 >= |buf| then None else CDataEnd(buf, p + 1)
  }

  /** To the end of an element name; the second part is the start of the name, which restarts
      after every colon. */
  function ElementName(buf: string, p: nat, start: nat): (r: Option<(nat, nat)>)
    requires start <= p <= |buf|
    ensures r.Some? ==> start <= r.value.1 <= r.value.0 < |buf| && p <= r.value.0 && EndsName(buf[r.value.0])
    decreases |buf| - p
  {
    if EndsName(At(buf, p)) then Some((p, start))
    else if p + 1 >= |buf| then None
    else if buf[p + 1] == ':' then ElementName(buf, p + 2, p + 2)
    else ElementName(buf, p + 1, start)
  }

  // ----- attributes

  /** Where the value that follows an '=' starts, and its length. */
  function AttValue(buf: string, p: nat): (r: Option<(nat, nat)>)
    requires p <= |buf|
    ensures r.Some? ==> p <= r.value.0 && r.value.0 + r.value.1 < |buf|
  {
    var v := SkipWhite(buf, p);
    if v.None? then None else
    var sep := At(buf, v.value);
    if sep == '\'' || sep == '"' then
      if v.value + 1 >= |buf| then None else
      var e := FindChar(buf, v.value + 1, sep);
      if e.None? then None else Some((v.value + 1, e.value - v.value - 1))
    else
      var e := UnquotedEnd(buf, v.value);
      if e.None? then None else Some((v.value, e.value - v.value))
  }

  /** One attribute; the byte that ends its value is at the event's end. */
  function OneAtt(buf: string, p: nat): (r: Option<Event>)
    requires p < |buf|
    ensures r.Some? ==> r.value.Att? && p <= r.value.Stop() < |buf| && r.value.Within(p, r.value.Stop())
  {
    var a := AttNameEnd(buf, p);
    if a.None? then None else
    var b := PastEquals(buf, a.value);
    if b.None? then None else
    var v := AttValue(buf, b.value);
    if v.None? then None else Some(Att(p, a.value - p, v.value.0, v.value.1))
  }

  /** The events of `parseatt` from `p` on, and where it stops; None when it reports the end. */
  function Atts(buf: string, p: nat): (r: (seq<Event>, Option<nat>))
    requires p <= |buf|
    ensures r.1.Some? ==> p <= r.1.value < |buf| && (buf[r.1.value] == '/' || buf[r.1.value] == '>')
    ensures InOrder(r.0, p, if r.1.Some? then r.1.value else |buf|)
    decreases |buf| - p
  {
    if p == |buf| then ([], None)
    else if buf[p] == '/' || buf[p] == '>' then ([], Some(p))
    else if IsWhite(buf[p]) then
      var rest := Atts(buf, p + 1);
      InOrderWider(rest.0, p + 1, p, if rest.1.Some? then rest.1.value else |buf|);
      rest
    else
      var one := OneAtt(buf, p);
      if one.None? then ([], None)
      else
        var ev := one.value;
        var rest := Atts(buf, ev.Stop() + 1);
        InOrderWider(rest.0, ev.Stop() + 1, ev.Stop(), if rest.1.Some? then rest.1.value else |buf|);
        assert ([ev] + rest.0)[1..] == rest.0;
        ([ev] + rest.0, rest.1)
  }

  lemma AttsSteps(buf: string, p: nat)
    requires p <= |buf|
    ensures p == |buf| ==> Atts(buf, p) == ([], None)
    ensures p < |buf| && (buf[p] == '/' || buf[p] == '>') ==> Atts(buf, p) == ([], Some(p))
    ensures p < |buf| && IsWhite(buf[p]) ==> Atts(buf, p) == Atts(buf, p + 1)
    ensures p < |buf| && buf[p] != '/' && buf[p] != '>' && !IsWhite(buf[p]) ==>
      var one := OneAtt(buf, p);
      if one.None? then Atts(buf, p) == ([], None)
      else
        var rest := Atts(buf, one.value.Stop() + 1);
        Atts(buf, p) == ([one.value] + rest.0, rest.1)
  {
    hide InOrder, OneAtt;
  }

  // ----- elements

  /** A turn of the main loop: its events and where the next turn starts, if there is one. */
  datatype Turn = Turn(evs: seq<Event>, next: Option<nat>)

  /** The content after the '>' at `r`: white space, then CDATA or text up to the next '<'. */
  function ContentTurn(buf: string, r: nat): (t: Turn)
    requires r < |buf|
    ensures t.next.Some? ==> r < t.next.value <= |buf|
    ensures InOrder(t.evs, r, if t.next.Some? then t.next.value else |buf|)
  {
    var d := r + 1;
    if d >= |buf| then Turn([], None) else
    var w := SkipWhite(buf, d);
    if w.None? then Turn([], None)
    else if Looks(buf, w.value, "<![CDATA[") then CDataTurn(buf, w.value + 9)
    else
      var e := TextEnd(buf, w.value);
      if e.None? then Turn([], None)
      else if e.value > d && At(buf, e.value + 1) == '/' then Turn([Chars(d, e.value - d)], e)
      else Turn([], e)
  }

  function CDataTurn(buf: string, c: nat): (t: Turn)
    requires 9 <= c && Looks(buf, c - 9, "<![CDATA[")
    ensures t.next.Some? ==> c <= t.next.value <= |buf|
    ensures InOrder(t.evs, c, if t.next.Some? then t.next.value else |buf|)
  {
    assert At(buf, c - 9 + 8) == "<![CDATA["[8];
    var e := CDataEnd(buf, c);
    if e.None? then Turn([], None)
    else
      var evs := if e.value > c then [Chars(c, e.value - c)] else [];
      assert At(buf, e.value + 0) == "]]>"[0];
      Turn(evs, FindChar(buf, e.value, '<'))
  }

  /** A start tag whose name is `buf[start..q]`. */
  function StartTurn(buf: string, start: nat, q: nat): (t: Turn)
    requires start < q < |buf|
    ensures t.next.Some? ==> q <= t.next.value <= |buf|
    ensures InOrder(t.evs, start, if t.next.Some? then t.next.value else |buf|)
  {
    var ev := Start(start, q - start);
    var (atts, stop) := Atts(buf, q);
    assert ([ev] + atts)[1..] == atts;
    if stop.None? then Turn([ev] + atts, None)
    else if buf[stop.value] == '/' then Turn([ev] + atts, stop)
    else
      var t := ContentTurn(buf, stop.value);
      InOrderConcat([ev] + atts, t.evs, start, stop.value, if t.next.Some? then t.next.value else |buf|);
      Turn([ev] + atts + t.evs, t.next)
  }

  /** An end tag whose '/' is at `q`. */
  function EndTurn(buf: string, q: nat): (t: Turn)
    requires q < |buf|
    ensures t.next.Some? ==> q < t.next.value <= |buf|
    ensures InOrder(t.evs, q, if t.next.Some? then t.next.value else |buf|)
  {
    if q + 1 >= |buf| then Turn([], None)
    else
      var e := FindChar(buf, q + 1, '>');
      if e.None? then Turn([], None)
      else Turn([End(q + 1, e.value - q - 1)], Some(e.value + 1))
  }

  function OneTurn(buf: string, p: nat): (t: Turn)
    requires p + 1 < |buf|
    ensures t.next.Some? ==> p < t.next.value <= |buf|
    ensures InOrder(t.evs, p, if t.next.Some? then t.next.value else |buf|)
  {
    if buf[p] == '<' && buf[p + 1] != '?' then
      var name := ElementName(buf, p + 1, p + 1);
      if name.None? then Turn([], None)
      else
        var (q, start) := name.value;
        if start < q then
          var t := StartTurn(buf, start, q);
          InOrderWider(t.evs, start, p, if t.next.Some? then t.next.value else |buf|);
          t
        else if buf[q] == '/' then
          var t := EndTurn(buf, q);
          InOrderWider(t.evs, q, p, if t.next.Some? then t.next.value else |buf|);
          t
        else Turn([], Some(q))
    else Turn([], Some(p + 1))
  }

  /** The events from `p` on, on any buffer: their slices are inside the buffer and in order. */
  function Parse(buf: string, p: nat): (evs: seq<Event>)
    requires p <= |buf|
    ensures InOrder(evs, p, |buf|)
    decreases |buf| - p
  {
    if p + 1 >= |buf| then []
    else
      var t := OneTurn(buf, p);
      if t.next.None? then t.evs
      else
        var rest := Parse(buf, t.next.value);
        InOrderConcat(t.evs, rest, p, t.next.value, |buf|);
        t.evs + rest
  }

  // ----- the parser object

  /** struct xmlparser, with the callbacks recorded in `events`. */
  class Parser {
    const buf: string
    var pos: nat
    var events: seq<Event>

    constructor (xml: string)
      ensures buf == xml && pos == 0 && events == []
    {
      buf, pos, events := xml, 0, [];
    }

    /** The attribute name and the '=' after it. */
    method ParseAttName() returns (ended: bool, nameLen: nat)
      requires pos < |buf|
      modifies `pos
      ensures var a := AttNameEnd(buf, old(pos));
              if a.None? || PastEquals(buf, a.value).None? then ended
              else !ended && nameLen == a.value - old(pos) && pos == PastEquals(buf, a.value).value
    {
      nameLen := 0;
      var start := pos;
      while At(buf, pos) != '=' && !IsWhite(At(buf, pos))
        invariant start <= pos < |buf| && AttNameEnd(buf, start) == AttNameEnd(buf, pos)
        invariant nameLen == pos - start
        decreases |buf| - pos
      {
        nameLen, pos := nameLen + 1, pos + 1;
        if pos >= |buf| { return true, 0; }
      }
      ghost var a := pos;
      while buf[pos] != '='
        invariant a <= pos < |buf| && PastEquals(buf, a) == PastEquals(buf, pos)
        decreases |buf| - pos
      {
        pos := pos + 1;
        if pos >= |buf| { return true, 0; }
      }
      pos := pos + 1;
      ended := false;
    }

    /** The value, after white space and with or without quotes. */
    method ParseAttValue() returns (ended: bool, value: nat, valueLen: nat)
      requires pos <= |buf|
      modifies `pos
      ensures var v := AttValue(buf, old(pos));
              if v.None? then ended else !ended && (value, valueLen) == v.value && pos == value + valueLen
    {
      value, valueLen := 0, 0;
      while IsWhite(At(buf, pos))
        invariant old(pos) <= pos <= |buf| && SkipWhite(buf, old(pos)) == SkipWhite(buf, pos)
        decreases |buf| - pos
      {
        pos := pos + 1;
        if pos >= |buf| { return true, 0, 0; }
      }
      var sep := At(buf, pos);
      if sep == '\'' || sep == '"' {
        pos := pos + 1;
        if pos >= |buf| { return true, 0, 0; }
        value := pos;
        while buf[pos] != sep
          invariant value <= pos < |buf| && FindChar(buf, value, sep) == FindChar(buf, pos, sep)
          invariant valueLen == pos - value
          decreases |buf| - pos
        {
          valueLen, pos := valueLen + 1, pos + 1;
          if pos >= |buf| { return true, 0, 0; }
        }
      } else {
        value := pos;
        while !EndsName(At(buf, pos))
          invariant value <= pos <= |buf| && UnquotedEnd(buf, value) == UnquotedEnd(buf, pos)
          invariant valueLen == pos - value
          decreases |buf| - pos
        {
          valueLen, pos := valueLen + 1, pos + 1;
          if pos >= |buf| { return true, 0, 0; }
        }
      }
      ended := false;
    }

    /** parseatt: up to the '/' or '>' of the tag, or to the end of the buffer. */
    method ParseAtt() returns (ended: bool)
      requires pos <= |buf|
      modifies this
      ensures ended <==> Atts(buf, old(pos)).1.None?
      ensures !ended ==> pos == Atts(buf, old(pos)).1.value
      ensures events == old(events) + Atts(buf, old(pos)).0
    {
      hide InOrder, AttNameEnd, PastEquals, AttValue, Atts;
      AttsSteps(buf, |buf|);
      while pos < |buf|
        invariant pos <= |buf|
        invariant Atts(buf, old(pos)).1 == Atts(buf, pos).1
        invariant old(events) + Atts(buf, old(pos)).0 == events + Atts(buf, pos).0
        decreases |buf| - pos
      {
        AttsSteps(buf, pos);
        if buf[pos] == '/' || buf[pos] == '>' { return false; }
        if !IsWhite(buf[pos]) {
          var attName := pos;
          var failed, attNameLen := ParseAttName();
          if failed { return true; }
          var attValue, attValueLen;
          failed, attValue, attValueLen := ParseAttValue();
          if failed { return true; }
          events := events + [Att(attName, attNameLen, attValue, attValueLen)];
        }
        pos := pos + 1;
      }
      ended := true;
    }

    /** The name loop of parseelt: the start of the name and its length. */
    method ParseName() returns (ended: bool, start: nat, len: nat)
      requires pos <= |buf|
      modifies `pos
      ensures var name := ElementName(buf, old(pos), old(pos));
              if name.None? then ended
              else !ended && pos == name.value.0 && start == name.value.1 && len == pos - start
    {
      start, len := pos, 0;
      while !EndsName(At(buf, pos))
        invariant start + len == pos <= |buf|
        invariant ElementName(buf, old(pos), old(pos)) == ElementName(buf, pos, start)
        decreases |buf| - pos
      {
        len, pos := len + 1, pos + 1;
        if pos >= |buf| { return true, 0, 0; }
        if buf[pos] == ':' {
          len, pos := 0, pos + 1;
          start := pos;
        }
      }
      ended := false;
    }

    /** A CDATA section, whose text starts at the cursor. */
    method ParseCData() returns (ended: bool)
      requires 9 <= pos && Looks(buf, pos - 9, "<![CDATA[")
      modifies this
      ensures var t := CDataTurn(buf, old(pos));
              events == old(events) + t.evs && (if t.next.None? then ended else !ended && pos == t.next.value)
    {
      var data, i := pos, 0;
      while !Looks(buf, pos, "]]>")
        invariant data + i == pos && (i > 0 ==> pos + 3 < |buf|)
        invariant CDataEnd(buf, data) == CDataEnd(buf, pos)
        invariant events == old(events)
        decreases if pos < |buf| then |buf| - pos else 0
      {
        i, pos := i + 1, pos + 1;
        if pos + 3 >= |buf| { return true; }
      }
      if i > 0 {
        events := events + [Chars(data, i)];
      }
      ghost var e := pos;
      assert At(buf, pos + 0) == "]]>"[0];
      while At(buf, pos) != '<'
        invariant e <= pos < |buf| && FindChar(buf, e, '<') == FindChar(buf, pos, '<')
        invariant events == old(events) + if e > data then [Chars(data, e - data)] else []
        decreases |buf| - pos
      {
        pos := pos + 1;
        if pos >= |buf| { return true; }
      }
      ended := false;
    }

    /** The content after the '>' at the cursor. */
    method ParseContent() returns (ended: bool)
      requires pos < |buf|
      modifies this
      ensures var t := ContentTurn(buf, old(pos));
              events == old(events) + t.evs && (if t.next.None? then ended else !ended && pos == t.next.value)
    {
      hide InOrder, CDataTurn;
      pos := pos + 1;
      var data, i := pos, 0;
      if pos >= |buf| { return true; }
      while IsWhite(At(buf, pos))
        invariant data + i == pos < |buf| && SkipWhite(buf, data) == SkipWhite(buf, pos)
        invariant events == old(events)
        decreases |buf| - pos
      {
        i, pos := i + 1, pos + 1;
        if pos >= |buf| { return true; }
      }
      if Looks(buf, pos, "<![CDATA[") {
        pos := pos + 9;
        ended := ParseCData();
      } else {
        ghost var w := pos;
        while buf[pos] != '<'
          invariant data + i == pos < |buf| && TextEnd(buf, w) == TextEnd(buf, pos)
          invariant events == old(events)
          decreases |buf| - pos
        {
          i, pos := i + 1, pos + 1;
          if pos + 1 >= |buf| { return true; }
        }
        if i > 0 && At(buf, pos + 1) == '/' {
          events := events + [Chars(data, i)];
        }
        ended := false;
      }
    }

    /** An end tag, with the cursor at its '/'. */
    method ParseEndTag() returns (ended: bool)
      requires pos < |buf|
      modifies this
      ensures var t := EndTurn(buf, old(pos));
              events == old(events) + t.evs && (if t.next.None? then ended else !ended && pos == t.next.value)
    {
      pos := pos + 1;
      var name, i := pos, 0;
      if pos >= |buf| { return true; }
      while buf[pos] != '>'
        invariant name + i == pos < |buf| && FindChar(buf, name, '>') == FindChar(buf, pos, '>')
        invariant events == old(events)
        decreases |buf| - pos
      {
        i, pos := i + 1, pos + 1;
        if pos >= |buf| { return true; }
      }
      events := events + [End(name, i)];
      pos := pos + 1;
      ended := false;
    }

    /** The body of the main loop of parseelt. */
    method ParseTurn() returns (ended: bool)
      requires pos + 1 < |buf|
      modifies this
      ensures var t := OneTurn(buf, old(pos));
              events == old(events) + t.evs && (if t.next.None? then ended else !ended && pos == t.next.value)
    {
      hide InOrder, ElementName, Atts, ContentTurn, EndTurn;
      if buf[pos] == '<' && buf[pos + 1] != '?' {
        pos := pos + 1;
        var start, i;
        ended, start, i := ParseName();
        if ended { return; }
        if i > 0 {
          events := events + [Start(start, i)];
          ended := ParseAtt();
          if ended { return; }
          if At(buf, pos) != '/' {
            ended := ParseContent();
          }
        } else if At(buf, pos) == '/' {
          ended := ParseEndTag();
        }
      } else {
        pos := pos + 1;
        ended := false;
      }
    }

    /** parseelt */
    method ParseElt()
      requires pos <= |buf|
      modifies this
      ensures events == old(events) + Parse(buf, old(pos))
    {
      hide InOrder, OneTurn;
      while pos + 1 < |buf|
        invariant pos <= |buf|
        invariant old(events) + Parse(buf, old(pos)) == events + Parse(buf, pos)
        decreases |buf| - pos
      {
        ghost var before, t := events, OneTurn(buf, pos);
        var ended := ParseTurn();
        if ended { return; }
        assert before + (t.evs + Parse(buf, pos)) == (before + t.evs) + Parse(buf, pos);
      }
    }

    /** parsexml: all the callbacks for the buffer, in order. */
    method ParseXml()
      modifies this
      ensures events == old(events) + Parse(buf, 0)
    {
      pos := 0;
      ParseElt();
    }
  }
}
