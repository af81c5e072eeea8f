/**
  The header lines of an HTTP response, as `getHTTPResponse` reads them: only
  Content-Length and Transfer-Encoding matter.
 */
module HttpHeaderFields {
  import opened HttpHeaderScan
  import opened Text

  const CONTENT_LENGTH := "content-length"
  const TRANSFER_ENCODING := "transfer-encoding"
  const CHUNKED := "chunked"

  // ----- the C library calls

  function Lower(c: char): char {
    if 'A' <= c <= 'Z' then (c as int + 32) as char else c
  }

  /** strncasecmp (a, b, n) == 0 */
  predicate SameNoCase(a: string, b: string, n: nat)
    decreases n
  {
    n == 0 ||
    (Lower(At(a, 0)) == Lower(At(b, 0)) &&
     (At(a, 0) == '\0' || (a != "" && SameNoCase(a[1..], if b == "" then b else b[1..], n - 1))))
  }

  predicate IsSpace(c: char) {
    c == ' ' || c == '\t' || c == '\n' || c == '\r' || c as int == 11 || c as int == 12
  }

  predicate IsDigit(c: char) {
    '0' <= c <= '9'
  }

  function Digits(s: string, acc: int): int {
    if s == "" || !IsDigit(s[0]) then acc
    else Digits(s[1..], 10 * acc + (s[0] as int - '0' as int))
  }

  /** atoi: white space, a sign, digits up to the first other byte. */
  function Atoi(s: string): int {
    if s == "" then 0
    else if IsSpace(s[0]) then Atoi(s[1..])
    else if s[0] == '-' then -Digits(s[1..], 0)
    else if s[0] == '+' then Digits(s[1..], 0)
    else Digits(s, 0)
  }

  // ----- the loop over the header lines

  predicate IsBlank(c: char) {
    c == ' ' || c == '\t'
  }

  /** What the headers said: the body length (-1 when absent) and whether it is chunked. */
  datatype Framing = Framing(length: int, chunked: bool)

  /** `line`, `colon` and `value` are the indices linestart, colon and valuestart of the source. */
  datatype Cursor = Cursor(line: nat, colon: nat, value: nat)

  function SkipBlanks(h: string, end: nat, i: nat): (j: nat)
    requires i < end <= |h|
    ensures i <= j < end
    decreases end - i
  {
    if i + 1 < end && IsBlank(h[i + 1]) then SkipBlanks(h, end, i + 1) else i
  }

  function SkipEols(h: string, i: nat): (j: nat)
    requires i <= |h|
    ensures i <= j <= |h| && (i < |h| && IsEol(h[i]) ==> i < j)
    decreases |h| - i
  {
    if i < |h| && IsEol(h[i]) then SkipEols(h, i + 1) else i
  }

  /** One header line whose name is `h[c.line..c.colon]` and whose value starts at `c.value`. */
  function ApplyLine(h: string, c: Cursor, f: Framing): Framing
    requires c.line <= |h| && c.value <= |h|
  {
    if c.colon > c.line && c.value > c.colon then
      if SameNoCase(h[c.line..], CONTENT_LENGTH, c.colon - c.line) then
        f.(length := Atoi(h[c.value..]))
      else if SameNoCase(h[c.line..], TRANSFER_ENCODING, c.colon - c.line)
              && SameNoCase(h[c.value..], CHUNKED, 7) then
        f.(chunked := true)
      else f
    else f
  }

  function ParseFrom(h: string, end: nat, i: nat, c: Cursor, f: Framing): Framing
    requires end <= |h| && c.line <= |h| && c.value <= |h|
    decreases if i < end then end - i else 0
  {
    if i + 1 >= end then f
    else if c.colon <= c.line && h[i] == ':' then
      var j := SkipBlanks(h, end, i);
      ParseFrom(h, end, j + 1, Cursor(c.line, i, j + 1), f)
    else if IsEol(h[i]) then
      var j := SkipEols(h, i);
      ParseFrom(h, end, j + 1, Cursor(j, j, 0), ApplyLine(h, c, f))
    else ParseFrom(h, end, i + 1, c, f)
  }

  const NO_FRAMING := Framing(-1, false)

  function ParseHeaders(h: string, end: nat): Framing
    requires end <= |h|
  {
    ParseFrom(h, end, 0, Cursor(0, 0, 0), NO_FRAMING)
  }

  method ReadHeaders(header: string, endOfHeaders: nat) returns (contentLength: int, chunked: bool)
    requires endOfHeaders <= |header|
    ensures Framing(contentLength, chunked) == ParseHeaders(header, endOfHeaders)
  {
    hide SameNoCase, Atoi;
    contentLength, chunked := -1, false;
    var lineStart, colon, valueStart := 0, 0, 0;
    var i := 0;
    while i + 1 < endOfHeaders
      invariant lineStart <= |header| && valueStart <= |header|
      invariant ParseFrom(header, endOfHeaders, i, Cursor(lineStart, colon, valueStart), Framing(contentLength, chunked))
             == ParseHeaders(header, endOfHeaders)
      decreases if i < endOfHeaders then endOfHeaders - i else 0
    {
      if colon <= lineStart && header[i] == ':' {
        colon := i;
        while i + 1 < endOfHeaders && IsBlank(header[i + 1])
          invariant colon <= i < endOfHeaders
          invariant SkipBlanks(header, endOfHeaders, i) == SkipBlanks(header, endOfHeaders, colon)
        {
          i := i + 1;
        }
        valueStart := i + 1;
      } else if header[i] == '\r' || header[i] == '\n' {
        if colon > lineStart && valueStart > colon {
          if SameNoCase(header[lineStart..], CONTENT_LENGTH, colon - lineStart) {
            contentLength := Atoi(header[valueStart..]);
          } else if SameNoCase(header[lineStart..], TRANSFER_ENCODING, colon - lineStart)
                    && SameNoCase(header[valueStart..], CHUNKED, 7) {
            chunked := true;
          }
        }
        ghost var eol := i;
        while i < |header| && (header[i] == '\r' || header[i] == '\n')
          invariant eol <= i <= |header|
          invariant i == eol ==> i < endOfHeaders
          invariant SkipEols(header, i) == SkipEols(header, eol)
        {
          i := i + 1;
        }
        lineStart := i;
        colon := lineStart;
        valueStart := 0;
      }
      i := i + 1;
    }
  }

  // ----- header blocks

  datatype HeaderLine = Plain(text: string) | Field(name: string, pad: string, value: string) {
    function Text(): string {
      if Plain? then text else name + ":" + pad + value
    }

    ghost predicate WellFormed() {
      if Plain? then ValidText(text) && ':' !in text
      else
        && ValidText(name) && ':' !in name
        && (forall k :: 0 <= k < |pad| ==> IsBlank(pad[k]))
        && (forall k :: 0 <= k < |value| ==> !IsEol(value[k]))
        && (value != "" ==> !IsSpace(value[0]))
    }

    /** A Content-Length field without a value. */
    predicate IsEmptyLength() {
      IsLength() && value == ""
    }

    predicate IsLength() {
      Field? && SameNoCase(name, CONTENT_LENGTH, |name|)
    }

    /** What the line says, as the source understands it: a field name stands for
        Content-Length or Transfer-Encoding when it is a prefix of that name. */
    function Meaning(f: Framing): Framing {
      if Plain? then f
      else if SameNoCase(name, CONTENT_LENGTH, |name|) then f.(length := Atoi(value))
      else if SameNoCase(name, TRANSFER_ENCODING, |name|) && SameNoCase(value, CHUNKED, 7) then f.(chunked := true)
      else f
    }
  }

  function Meaning(lines: seq<HeaderLine>, f: Framing): Framing {
    if lines == [] then f else Meaning(lines[1..], lines[0].Meaning(f))
  }

  ghost predicate ValidHeader(lines: seq<HeaderLine>) {
    lines != [] && forall k :: 0 <= k < |lines| ==> lines[k].WellFormed()
  }

  function ToLines(lines: seq<HeaderLine>): (r: seq<Line>)
    ensures |r| == |lines|
    ensures forall k :: 0 <= k < |r| ==> r[k] == Line(lines[k].Text(), CrLf)
  {
    seq(|lines|, k requires 0 <= k < |lines| => Line(lines[k].Text(), CrLf))
  }

  /** The header block: the lines, each ended by CR LF, and the blank line. */
  function RenderHeader(lines: seq<HeaderLine>): string {
    if lines == [] then "\r\n" else lines[0].Text() + "\r\n" + RenderHeader(lines[1..])
  }

  /** A line as it is read: a Content-Length without a value takes the number that the text after
      the line starts with. */
  function ReadLine(l: HeaderLine, after: string, f: Framing): Framing {
    if l.IsEmptyLength() then f.(length := Atoi(after)) else l.Meaning(f)
  }

  /** A header block as it is read; `body` is what has come of the body with it. */
  function ReadBlock(lines: seq<HeaderLine>, body: string, f: Framing): Framing {
    if lines == [] then f
    else ReadBlock(lines[1..], body, ReadLine(lines[0], RenderHeader(lines[1..]) + body, f))
  }

  predicate HasLength(lines: seq<HeaderLine>) {
    lines != [] && (lines[0].IsLength() || HasLength(lines[1..]))
  }

  /** The last Content-Length has a value, or no other number than 0 comes after it. */
  predicate LengthKept(lines: seq<HeaderLine>, body: string) {
    lines == []
    || (if HasLength(lines[1..]) then LengthKept(lines[1..], body)
        else lines[0].IsEmptyLength() ==> Atoi(RenderHeader(lines[1..]) + body) == 0)
  }

  /** The length read is the length meant exactly when it is kept; a length that is not kept was
      meant as 0. */
  lemma {:induction false} ReadBlockMeans(lines: seq<HeaderLine>, body: string, f: Framing, f': Framing)
    requires f.chunked == f'.chunked
    ensures ReadBlock(lines, body, f).chunked == Meaning(lines, f').chunked
    ensures if HasLength(lines) then ReadBlock(lines, body, f).length == Meaning(lines, f').length <==> LengthKept(lines, body)
            else ReadBlock(lines, body, f).length == f.length && Meaning(lines, f').length == f'.length
    ensures HasLength(lines) && !LengthKept(lines, body) ==> Meaning(lines, f').length == 0
    ensures !HasLength(lines) ==> LengthKept(lines, body)
    decreases lines
  {
    hide SameNoCase;
    if lines != [] {
      ReadBlockMeans(lines[1..], body, ReadLine(lines[0], RenderHeader(lines[1..]) + body, f), lines[0].Meaning(f'));
    }
  }

  lemma {:induction false} RenderHeaderIsRender(lines: seq<HeaderLine>)
    ensures RenderHeader(lines) == Render(ToLines(lines)) + "\r\n"
  {
    if lines != [] {
      RenderHeaderIsRender(lines[1..]);
      assert ToLines(lines)[1..] == ToLines(lines[1..]);
    }
  }

  lemma TextIsValid(l: HeaderLine)
    requires l.WellFormed()
    ensures ValidText(l.Text())
  {
    if l.Field? {
      var t := l.Text();
      forall k | 0 <= k < |t| ensures !IsEol(t[k]) {
        if k > |l.name| {
          assert t[k] == (l.pad + l.value)[k - |l.name| - 1];
        }
      }
    }
  }

  /** The header end of a valid header block is found just past its blank line. */
  lemma HeaderBlockFound(lines: seq<HeaderLine>, body: string)
    requires ValidHeader(lines)
    ensures Scan(RenderHeader(lines) + body, 0) == |RenderHeader(lines)|
  {
    var ls := ToLines(lines);
    forall k | 0 <= k < |lines| ensures ValidText(ls[k].text) && ValidLine(ls[k]) {
      TextIsValid(lines[k]);
      PlainLastLine(ls[k], 0);
    }
    PlainEntry(ls, 0);
    PlainLastLine(ls[|ls| - 1], LastEntry(ls, 0));
    HeaderEndFound(ls, CrLf, body);
    RenderHeaderIsRender(lines);
  }

  // ----- comparing and converting inside a larger buffer

  lemma {:induction false} SameNoCasePrefix(a: string, rest: string, b: string, n: nat)
    requires n <= |a|
    ensures SameNoCase(a + rest, b, n) == SameNoCase(a, b, n)
    decreases n
  {
    if n != 0 {
      assert (a + rest)[1..] == a[1..] + rest;
      SameNoCasePrefix(a[1..], rest, if b == "" then b else b[1..], n - 1);
    }
  }

  /** A field name stands for a known name exactly when it is a prefix of it, case aside. */
  lemma {:induction false} SameNoCaseIsPrefix(a: string, b: string)
    requires '\0' !in a && '\0' !in b
    ensures SameNoCase(a, b, |a|) <==> |a| <= |b| && forall k :: 0 <= k < |a| ==> Lower(a[k]) == Lower(b[k])
    decreases |a|
  {
    if a != "" && b != "" {
      assert a[0] in a && b[0] in b;
      SameNoCaseIsPrefix(a[1..], b[1..]);
      if SameNoCase(a, b, |a|) {
        forall k | 0 <= k < |a| ensures Lower(a[k]) == Lower(b[k]) {
          if k > 0 { assert a[k] == a[1..][k - 1] && b[k] == b[1..][k - 1]; }
        }
      }
    } else if a != "" {
      assert a[0] in a;
    }
  }

  /** Comparing a value with a constant that has no line end never looks past the line. */
  lemma {:induction false} SameNoCaseValue(v: string, rest: string, b: string)
    requires forall k :: 0 <= k < |v| ==> !IsEol(v[k])
    requires rest != "" && IsEol(rest[0])
    requires forall k :: 0 <= k < |b| ==> Lower(b[k]) != '\0' && !IsEol(Lower(b[k]))
    ensures SameNoCase(v + rest, b, |b|) == SameNoCase(v, b, |b|)
    decreases |b|
  {
    if b != "" && v != "" {
      assert (v + rest)[1..] == v[1..] + rest;
      SameNoCaseValue(v[1..], rest, b[1..]);
    } else if b != "" {
      assert v + rest == rest;
    }
  }

  lemma {:induction false} DigitsStop(v: string, rest: string, acc: int)
    requires rest == "" || !IsDigit(rest[0])
    ensures Digits(v + rest, acc) == Digits(v, acc)
    decreases |v|
  {
    if v == "" {
      assert v + rest == rest;
    } else if IsDigit(v[0]) {
      assert (v + rest)[1..] == v[1..] + rest;
      DigitsStop(v[1..], rest, 10 * acc + (v[0] as int - '0' as int));
    }
  }

  lemma AtoiStops(v: string, rest: string)
    requires v != "" && !IsSpace(v[0])
    requires rest != "" && IsEol(rest[0])
    ensures Atoi(v + rest) == Atoi(v)
  {
    assert (v + rest)[1..] == v[1..] + rest;
    DigitsStop(v[1..], rest, 0);
    DigitsStop(v, rest, 0);
  }

  // ----- numbers

  lemma {:induction false} DigitsAppend(s: string, c: char, acc: int)
    requires (forall k :: 0 <= k < |s| ==> IsDigit(s[k])) && IsDigit(c)
    ensures Digits(s + [c], acc) == 10 * Digits(s, acc) + (c as int - '0' as int)
    decreases s
  {
    if s == "" {
      assert s + [c] == [c] && [c][1..] == "";
    } else {
      assert (s + [c])[1..] == s[1..] + [c];
      DigitsAppend(s[1..], c, 10 * acc + (s[0] as int - '0' as int));
    }
  }

  lemma {:induction false} DigitsOfDec(n: nat)
    ensures Digits(Dec(n), 0) == n
  {
    var c := (n % 10 + '0' as int) as char;
    if n < 10 {
      assert Dec(n) == [c] && [c][1..] == "";
    } else {
      DigitsOfDec(n / 10);
      DecDigits(n / 10);
      DigitsAppend(Dec(n / 10), c, 0);
    }
  }

  /** atoi reads back what printf wrote, up to the first other byte. */
  lemma AtoiOfDec(n: nat, rest: string)
    requires rest == "" || !('0' <= rest[0] <= '9')
    ensures Atoi(Dec(n) + rest) == n
    ensures Atoi("+" + (Dec(n) + rest)) == n
    ensures Atoi("-" + (Dec(n) + rest)) == 0 - n
  {
    hide Dec, Digits;
    DecDigits(n);
    DigitsOfDec(n);
    DigitsStop(Dec(n), rest, 0);
    var s := Dec(n) + rest;
    assert s[0] == Dec(n)[0];
    AtoiSigned(s);
  }

  lemma AtoiSigned(s: string)
    ensures Atoi("+" + s) == Digits(s, 0) && Atoi("-" + s) == 0 - Digits(s, 0)
    ensures s != "" && IsDigit(s[0]) ==> Atoi(s) == Digits(s, 0)
  {
    hide Digits;
    assert ("+" + s)[1..] == s && ("-" + s)[1..] == s;
  }

  /** It steps over white space. */
  lemma {:induction false} AtoiSkips(white: string, s: string)
    requires forall k :: 0 <= k < |white| ==> white[k] == ' ' || '\t' <= white[k] <= '\r'
    ensures Atoi(white + s) == Atoi(s)
    decreases white
  {
    if white == "" {
      assert white + s == s;
    } else {
      assert (white + s)[1..] == white[1..] + s;
      AtoiSkips(white[1..], s);
    }
  }

  /** A Content-Length as it is usually written. */
  function LengthLine(pad: string, n: nat): HeaderLine {
    Field("Content-Length", pad, Dec(n))
  }

  lemma LengthLineMeans(pad: string, n: nat, f: Framing)
    requires forall k :: 0 <= k < |pad| ==> pad[k] == ' ' || pad[k] == '\t'
    ensures var l := LengthLine(pad, n);
      l.WellFormed() && l.IsLength() && l.value != "" && l.Meaning(f) == f.(length := n)
  {
    hide Dec, SameNoCase, ValidText;
    LengthName("Content-Length");
    SameNoCaseIsPrefix("Content-Length", CONTENT_LENGTH);
    assert Dec(n) + "" == Dec(n);
    AtoiOfDec(n, "");
    DecDigits(n);
  }

  lemma LengthName(name: string)
    requires name == "Content-Length"
    ensures ValidText(name) && ':' !in name && |name| == |CONTENT_LENGTH|
    ensures forall k :: 0 <= k < |name| ==> Lower(name[k]) == Lower(CONTENT_LENGTH[k])
  {
  }

  lemma {:induction false} MeaningConcat(a: seq<HeaderLine>, b: seq<HeaderLine>, f: Framing)
    ensures Meaning(a + b, f) == Meaning(b, Meaning(a, f))
    decreases a
  {
    if a == [] {
      assert a + b == b;
    } else {
      assert (a + b)[1..] == a[1..] + b;
      MeaningConcat(a[1..], b, a[0].Meaning(f));
    }
  }

  lemma {:induction false} NoLengthMeans(lines: seq<HeaderLine>, f: Framing)
    requires !HasLength(lines)
    ensures Meaning(lines, f).length == f.length
    decreases lines
  {
    hide SameNoCase;
    if lines != [] {
      NoLengthMeans(lines[1..], lines[0].Meaning(f));
    }
  }

  lemma {:induction false} KeptWith(before: seq<HeaderLine>, l: HeaderLine, after: seq<HeaderLine>, body: string)
    requires l.IsLength() && l.value != "" && !HasLength(after)
    ensures LengthKept(before + [l] + after, body) && HasLength(before + [l] + after)
    decreases before
  {
    hide SameNoCase;
    var lines := before + [l] + after;
    if before == [] {
      assert lines[1..] == after;
    } else {
      assert lines[1..] == before[1..] + [l] + after;
      KeptWith(before[1..], l, after, body);
    }
  }

  /** The last length of a block is the number written in it, whatever comes before and after. */
  lemma LengthMeant(before: seq<HeaderLine>, pad: string, n: nat, after: seq<HeaderLine>, body: string)
    requires (forall k :: 0 <= k < |pad| ==> pad[k] == ' ' || pad[k] == '\t') && !HasLength(after)
    ensures var lines := before + [LengthLine(pad, n)] + after;
      Meaning(lines, NO_FRAMING).length == n && LengthKept(lines, body)
  {
    hide Meaning, LengthKept, HasLength, LengthLine, HeaderLine.Meaning, HeaderLine.WellFormed, HeaderLine.IsLength;
    var l := LengthLine(pad, n);
    MeaningConcat(before + [l], after, NO_FRAMING);
    MeaningConcat(before, [l], NO_FRAMING);
    OneMeans(l, Meaning(before, NO_FRAMING));
    LengthLineMeans(pad, n, Meaning(before, NO_FRAMING));
    NoLengthMeans(after, Meaning(before + [l], NO_FRAMING));
    KeptWith(before, l, after, body);
  }

  lemma OneMeans(l: HeaderLine, f: Framing)
    ensures Meaning([l], f) == l.Meaning(f)
  {
    assert [l][1..] == [];
  }

  // ----- the loop on a header block

  lemma {:induction false} SkipPlain(h: string, end: nat, i: nat, j: nat, c: Cursor, f: Framing)
    requires i <= j < end <= |h| && c.line <= |h| && c.value <= |h|
    requires forall k :: i <= k < j ==> !IsEol(h[k]) && (c.colon > c.line || h[k] != ':')
    ensures ParseFrom(h, end, i, c, f) == ParseFrom(h, end, j, c, f)
    decreases j - i
  {
    if i < j {
      SkipPlain(h, end, i + 1, j, c, f);
    }
  }

  lemma {:induction false} SkipPad(h: string, end: nat, i: nat, j: nat)
    requires i <= j && j + 1 < end <= |h|
    requires forall k :: i < k <= j ==> IsBlank(h[k])
    requires !IsBlank(h[j + 1])
    ensures SkipBlanks(h, end, i) == j
    decreases j - i
  {
    if i < j {
      SkipPad(h, end, i + 1, j);
    }
  }

  lemma {:induction false} SkipEolsStops(h: string, i: nat)
    requires i + 2 < |h| && h[i] == '\r' && h[i + 1] == '\n' && !IsEol(h[i + 2])
    ensures SkipEols(h, i) == i + 2
  {
    assert SkipEols(h, i) == SkipEols(h, i + 1) == SkipEols(h, i + 2);
  }

  function LineCursor(p: nat, l: HeaderLine): Cursor {
    if l.Plain? then Cursor(p, p, 0) else Cursor(p, p + |l.name|, p + |l.name| + 1 + |l.pad|)
  }

  lemma ReachFieldEnd(h: string, end: nat, p: nat, colon: nat, v: nat, q: nat, f: Framing, skip: nat)
    requires p < colon < v <= q && q + 2 <= end <= |h| && skip <= 1
    requires forall k :: p <= k < colon ==> !IsEol(h[k]) && h[k] != ':'
    requires h[colon] == ':' && forall k :: colon < k < v ==> IsBlank(h[k])
    requires forall k :: v <= k < q ==> !IsEol(h[k])
    requires !IsBlank(h[v])
    ensures ParseFrom(h, end, p + skip, Cursor(p, p, 0), f) == ParseFrom(h, end, q, Cursor(p, colon, v), f)
  {
    SkipPlain(h, end, p + skip, colon, Cursor(p, p, 0), f);
    SkipPad(h, end, colon, v - 1);
    SkipPlain(h, end, v, q, Cursor(p, colon, v), f);
  }

  /** At a line start, the loop reaches the line's CR with the line's name and value located. */
  lemma ReachLineEnd(h: string, end: nat, p: nat, l: HeaderLine, f: Framing, skip: nat)
    requires l.WellFormed() && skip <= 1
    requires p + |l.Text()| + 2 <= end <= |h|
    requires Reads(h, p, l.Text()) && h[p + |l.Text()|] == '\r'
    ensures ParseFrom(h, end, p + skip, Cursor(p, p, 0), f) == ParseFrom(h, end, p + |l.Text()|, LineCursor(p, l), f)
  {
    hide ParseFrom, Reads;
    var t := l.Text();
    var q := p + |t|;
    ReadsAt(h, p, t);
    if l.Plain? {
      SkipPlain(h, end, p + skip, q, Cursor(p, p, 0), f);
    } else {
      var colon, v := p + |l.name|, p + |l.name| + 1 + |l.pad|;
      forall k | p <= k < colon ensures !IsEol(h[k]) && h[k] != ':' {
        assert h[k] == l.name[k - p];
      }
      forall k | colon < k < v ensures IsBlank(h[k]) {
        assert h[k] == l.pad[k - colon - 1];
      }
      forall k | v <= k < q ensures h[k] == l.value[k - v] {
      }
      ReachFieldEnd(h, end, p, colon, v, q, f, skip);
    }
  }

  /** The rest of the buffer from the field's name and from its value. */
  lemma FieldParts(h: string, p: nat, l: HeaderLine)
    requires l.Field? && Reads(h, p, l.Text())
    ensures var v, q := LineCursor(p, l).value, p + |l.Text()|;
            p + |l.name| <= v <= q <= |h| && h[p..] == l.name + h[p + |l.name|..] && h[v..] == l.value + h[q..]
  {
    ReadsSplit(h, p, l.name + ":" + l.pad, l.value);
    ReadsSplit(h, p, l.name + ":", l.pad);
    ReadsSplit(h, p, l.name, ":");
  }

  lemma ReadName(name: string, afterName: string)
    ensures SameNoCase(name + afterName, CONTENT_LENGTH, |name|) == SameNoCase(name, CONTENT_LENGTH, |name|)
    ensures SameNoCase(name + afterName, TRANSFER_ENCODING, |name|) == SameNoCase(name, TRANSFER_ENCODING, |name|)
  {
    SameNoCasePrefix(name, afterName, CONTENT_LENGTH, |name|);
    SameNoCasePrefix(name, afterName, TRANSFER_ENCODING, |name|);
  }

  lemma ReadValue(value: string, tail: string)
    requires forall k :: 0 <= k < |value| ==> !IsEol(value[k])
    requires value != "" ==> !IsSpace(value[0])
    requires tail != "" && IsEol(tail[0])
    ensures SameNoCase(value + tail, CHUNKED, 7) == SameNoCase(value, CHUNKED, 7)
    ensures Atoi(value + tail) == if value == "" then Atoi(tail) else Atoi(value)
  {
    SameNoCaseValue(value, tail, CHUNKED);
    if value != "" {
      AtoiStops(value, tail);
    } else {
      assert value + tail == tail;
    }
  }

  /** A field at its line end: what `ApplyLine` reads is what was written. */
  lemma ApplyField(h: string, p: nat, l: HeaderLine, f: Framing)
    requires l.WellFormed() && l.Field? && Reads(h, p, l.Text())
    requires p + |l.Text()| < |h| && IsEol(h[p + |l.Text()|])
    ensures LineCursor(p, l).value <= |h|
    ensures ApplyLine(h, LineCursor(p, l), f)
         == ReadLine(l, h[p + |l.Text()|..], f)
  {
    hide SameNoCase, Atoi, Reads;
    FieldParts(h, p, l);
    ReadName(l.name, h[p + |l.name|..]);
    ReadValue(l.value, h[p + |l.Text()|..]);
  }

  /** One line of the loop, from a line start to the state after the line's CR LF. */
  lemma OneLine(h: string, end: nat, p: nat, l: HeaderLine, f: Framing, skip: nat)
    requires l.WellFormed() && skip <= 1
    requires Reads(h, p, l.Text()) && p + |l.Text()| + 2 <= end <= |h| && h[p + |l.Text()|] == '\r'
    ensures var f' := ReadLine(l, h[p + |l.Text()|..], f);
            var j := SkipEols(h, p + |l.Text()|);
            ParseFrom(h, end, p + skip, Cursor(p, p, 0), f) == ParseFrom(h, end, j + 1, Cursor(j, j, 0), f')
  {
    ReachLineEnd(h, end, p, l, f, skip);
    if l.Field? {
      ApplyField(h, p, l, f);
    }
  }

  /** The number after a line does not depend on the line end before it. */
  lemma ReadLineAfterEol(h: string, q: nat, l: HeaderLine, f: Framing)
    requires q + 2 <= |h| && h[q] == '\r' && h[q + 1] == '\n'
    ensures ReadLine(l, h[q..], f) == ReadLine(l, h[q + 2..], f)
  {
    assert h[q..][1..] == h[q + 1..] && h[q + 1..][1..] == h[q + 2..];
    assert Atoi(h[q..]) == Atoi(h[q + 1..]) == Atoi(h[q + 2..]);
  }

  lemma BlankLineEnds(h: string, q: nat)
    requires Reads(h, q, "\r\n") && Reads(h, q + 2, "\r\n")
    ensures SkipEols(h, q) >= q + 4
  {
    ReadsAt(h, q, "\r\n");
    ReadsAt(h, q + 2, "\r\n");
    assert SkipEols(h, q) == SkipEols(h, q + 1) == SkipEols(h, q + 2) == SkipEols(h, q + 3) == SkipEols(h, q + 4);
  }

  /** The first line of a header block and the rest of the block. */
  lemma SplitBlock(h: string, p: nat, lines: seq<HeaderLine>)
    requires lines != [] && Reads(h, p, RenderHeader(lines))
    ensures Reads(h, p, lines[0].Text()) && Reads(h, p + |lines[0].Text()|, "\r\n")
    ensures Reads(h, p + |lines[0].Text()| + 2, RenderHeader(lines[1..]))
  {
    ReadsSplit(h, p, lines[0].Text() + "\r\n", RenderHeader(lines[1..]));
    ReadsSplit(h, p, lines[0].Text(), "\r\n");
  }

  lemma BlockLength(lines: seq<HeaderLine>)
    requires lines != []
    ensures |RenderHeader(lines)| == |lines[0].Text()| + 2 + |RenderHeader(lines[1..])|
  {
  }

  lemma ParseEnds(h: string, end: nat, j: nat, f: Framing)
    requires end <= j <= |h|
    ensures ParseFrom(h, end, j + 1, Cursor(j, j, 0), f) == f
  {
  }

  lemma BlockStart(h: string, p: nat, lines: seq<HeaderLine>)
    requires ValidHeader(lines) && Reads(h, p, RenderHeader(lines))
    ensures p < |h| && !IsEol(h[p])
  {
    SplitBlock(h, p, lines);
    ReadsAt(h, p, lines[0].Text());
    TextIsValid(lines[0]);
  }

  lemma {:induction false} ParseLines(h: string, p: nat, lines: seq<HeaderLine>, f: Framing, skip: nat)
    requires ValidHeader(lines) && skip <= 1
    requires Reads(h, p, RenderHeader(lines))
    ensures p + |RenderHeader(lines)| <= |h|
    ensures ParseFrom(h, p + |RenderHeader(lines)|, p + skip, Cursor(p, p, 0), f)
         == ReadBlock(lines, h[p + |RenderHeader(lines)|..], f)
    decreases lines
  {
    hide Reads, ParseFrom, SkipEols, HeaderLine.Text, HeaderLine.WellFormed, ReadLine;
    var l, others := lines[0], lines[1..];
    var end := p + |RenderHeader(lines)|;
    var q := p + |l.Text()|;
    BlockBytes(h, p, lines);
    SplitBlock(h, p, lines);
    ReadsAt(h, q, "\r\n");
    OneLine(h, end, p, l, f, skip);
    ReadLineAfterEol(h, q, l, f);
    BlockLength(lines);
    BlockBytes(h, q + 2, others);
    var f' := ReadLine(l, h[q + 2..], f);
    if others == [] {
      BlankLineEnds(h, q);
      ParseEnds(h, end, SkipEols(h, q), f');
    } else {
      BlockStart(h, q + 2, others);
      SkipEolsStops(h, q);
      ParseLines(h, q + 2, others, f', 1);
    }
  }

  lemma BlockBytes(h: string, p: nat, lines: seq<HeaderLine>)
    requires Reads(h, p, RenderHeader(lines))
    ensures p + |RenderHeader(lines)| <= |h|
    ensures h[p..] == RenderHeader(lines) + h[p + |RenderHeader(lines)|..]
  {
  }

  /** Any header block is read line by line, whatever body bytes follow it; what its lines mean is
      read exactly when the length is kept. */
  lemma HeaderBlockRead(lines: seq<HeaderLine>, body: string)
    requires ValidHeader(lines)
    ensures var f := ParseHeaders(RenderHeader(lines) + body, |RenderHeader(lines)|);
      && f == ReadBlock(lines, body, NO_FRAMING)
      && (f == Meaning(lines, NO_FRAMING) <==> LengthKept(lines, body))
  {
    hide Reads, RenderHeader, ReadBlock, Meaning, LengthKept;
    var h := RenderHeader(lines) + body;
    ReadsWhole(h);
    ReadsSplit(h, 0, RenderHeader(lines), body);
    ParseLines(h, 0, lines, NO_FRAMING, 0);
    assert h[|RenderHeader(lines)|..] == body;
    ReadBlockMeans(lines, body, NO_FRAMING, NO_FRAMING);
  }

  /** A Content-Length without a value as the last header line takes its value from the body
      bytes that happened to arrive with the headers. */
  lemma {:induction false} EmptyLengthReadsBody(lines: seq<HeaderLine>, body: string, f: Framing)
    requires lines != [] && lines[|lines| - 1].IsEmptyLength()
    ensures ReadBlock(lines, body, f).length == Atoi(body)
    decreases lines
  {
    hide SameNoCase;
    if |lines| == 1 {
      assert lines[1..] == [];
      var h := "\r\n" + body;
      assert h[2..] == body;
      assert h[1..][1..] == body && Atoi(h) == Atoi(h[1..]) == Atoi(body);
    } else {
      EmptyLengthReadsBody(lines[1..], body, ReadLine(lines[0], RenderHeader(lines[1..]) + body, f));
    }
  }
}
