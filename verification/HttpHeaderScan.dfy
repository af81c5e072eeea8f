/**
  The search for the end of the HTTP headers in `getHTTPResponse`.

  The scan restarts from the first byte after every receive, over all the bytes
  received so far.  `Scan` is the whole scan as a function of the bytes; the
  method `FindHeaderEnd` is the loop of the source.
 */
module HttpHeaderScan {
  import opened Text

  predicate IsEol(c: char) {
    c == '\r' || c == '\n'
  }

  /** The scan from index `i`: the index just past the blank line, or 0.
      A byte that fails to continue a CR LF CR LF or LF LF match is stepped over. */
  function Scan(s: string, i: nat): (e: nat)
    ensures e == 0 || i + 2 <= e <= |s|
    decreases |s| - i
  {
    if i + 1 >= |s| then 0
    else if s[i] == '\r' then
      if s[i + 1] != '\n' then Scan(s, i + 2)
      else if i + 2 < |s| && s[i + 2] == '\r' then
        if i + 3 < |s| && s[i + 3] == '\n' then i + 4
        else if i + 4 <= |s| then Scan(s, i + 4) else 0
      else if i + 3 <= |s| then Scan(s, i + 3) else 0
    else if s[i] == '\n' then
      if s[i + 1] == '\n' then i + 2 else Scan(s, i + 2)
    else Scan(s, i + 1)
  }

  method FindHeaderEnd(buf: string) returns (endOfHeaders: nat)
    ensures endOfHeaders == Scan(buf, 0)
  {
    endOfHeaders := 0;
    var i := 0;
    while i + 1 < |buf| && endOfHeaders == 0
      invariant endOfHeaders == 0 && i <= |buf| ==> Scan(buf, 0) == Scan(buf, i)
      invariant endOfHeaders == 0 && i > |buf| ==> Scan(buf, 0) == 0
      invariant endOfHeaders != 0 ==> Scan(buf, 0) == endOfHeaders
      decreases |buf| - i
    {
      if buf[i] == '\r' {
        i := i + 1;
        if buf[i] == '\n' {
          i := i + 1;
          if i < |buf| && buf[i] == '\r' {
            i := i + 1;
            if i < |buf| && buf[i] == '\n' {
              endOfHeaders := i + 1;
            }
          }
        }
      } else if buf[i] == '\n' {
        i := i + 1;
        if buf[i] == '\n' {
          endOfHeaders := i + 1;
        }
      }
      i := i + 1;
    }
  }

  /** Scanning only the first `n` bytes finds exactly the ends that lie within them:
      what is found never depends on how the bytes were split into receives. */
  lemma {:induction false} ScanPrefix(s: string, n: nat, i: nat)
    requires n <= |s|
    ensures Scan(s[..n], i) == if Scan(s, i) <= n then Scan(s, i) else 0
    decreases |s| - i
  {
    var p := s[..n];
    if i + 1 < n {
      if s[i] == '\r' {
        if s[i + 1] != '\n' {
          ScanPrefix(s, n, i + 2);
        } else if i + 2 < n && s[i + 2] == '\r' {
          if i + 4 <= n && s[i + 3] != '\n' {
            ScanPrefix(s, n, i + 4);
          }
        } else if i + 3 <= n {
          ScanPrefix(s, n, i + 3);
        }
      } else if s[i] == '\n' {
        if s[i + 1] != '\n' {
          ScanPrefix(s, n, i + 2);
        }
      } else {
        ScanPrefix(s, n, i + 1);
      }
    }
  }

  /** The bytes carried over into the 2048-byte receive buffer when the header end is
      found number fewer than the receive that completed it. */
  lemma CarryOver(before: string, receive: string)
    requires Scan(before, 0) == 0
    requires Scan(before + receive, 0) != 0
    ensures |before + receive| - Scan(before + receive, 0) < |receive|
  {
    ScanPrefix(before + receive, |before|, 0);
    assert (before + receive)[..|before|] == before;
  }

  // ----- header blocks made of lines

  datatype Eol = CrLf | Lf {
    function Text(): string {
      if CrLf? then "\r\n" else "\n"
    }
  }

  datatype Line = Line(text: string, eol: Eol)

  ghost predicate ValidText(t: string) {
    && t != ""
    && forall k :: 0 <= k < |t| ==> !IsEol(t[k])
  }

  /** A line: some text without LF, and a CR before the line end only if that is CR LF. */
  ghost predicate ValidLine(l: Line) {
    l.text != "" && '\n' !in l.text && (l.eol.Lf? ==> l.text[|l.text| - 1] != '\r')
  }

  ghost predicate ValidLines(lines: seq<Line>) {
    forall k :: 0 <= k < |lines| ==> ValidLine(lines[k])
  }

  function Render(lines: seq<Line>): string {
    if lines == [] then ""
    else lines[0].text + lines[0].eol.Text() + Render(lines[1..])
  }

  // ----- how the scan enters and leaves a line

  predicate AllCr(text: string, e: nat) {
    forall k :: e <= k < |text| ==> text[k] == '\r'
  }

  /** The CRs at the end of a text, of those from index `e` on. */
  function CrRun(text: string, e: nat): nat
    decreases |text| - e
  {
    if e >= |text| then 0 else if AllCr(text, e) then |text| - e else CrRun(text, e + 1)
  }

  /** Entered at index `e`, the scan pairs the CRs of that run, and takes the CR of the line end
      as the second of a pair when their number is odd. */
  predicate TakesCr(line: Line, e: nat) {
    line.eol.CrLf? && (e > |line.text| || CrRun(line.text, e) % 2 == 1)
  }

  /** The line end the scan wants the blank line to have. */
  function Wanted(line: Line, e: nat): Eol {
    if line.eol.CrLf? && !TakesCr(line, e) then CrLf else Lf
  }

  /** Where the scan enters the line after this one: it always steps over the first byte. */
  function NextEntry(line: Line, e: nat, next: Line): nat
    requires next.text != ""
  {
    if Wanted(line, e).CrLf? && next.text[0] == '\r' then 2 else 1
  }

  /** Where the scan enters the last line. */
  function LastEntry(lines: seq<Line>, e: nat): nat
    requires lines != [] && forall k :: 0 <= k < |lines| ==> lines[k].text != ""
  {
    if |lines| == 1 then e else LastEntry(lines[1..], NextEntry(lines[0], e, lines[1]))
  }

  ghost predicate Entered(line: Line, e: nat) {
    e <= |line.text| || (e == |line.text| + 1 && line.eol.CrLf?)
  }

  lemma CrRunStep(text: string, e: nat)
    requires e <= |text|
    ensures e == |text| ==> CrRun(text, e) == 0
    ensures e < |text| && text[e] != '\r' ==> CrRun(text, e) == CrRun(text, e + 1)
    ensures e + 1 < |text| && text[e] == '\r' ==> CrRun(text, e) % 2 == CrRun(text, e + 2) % 2
    ensures e + 1 == |text| && text[e] == '\r' ==> CrRun(text, e) == 1
  {
    if e + 1 < |text| && text[e] == '\r' && !AllCr(text, e) {
      assert CrRun(text, e) == CrRun(text, e + 1);
      if text[e + 1] == '\r' || e + 2 < |text| {
        assert !AllCr(text, e + 1);
      }
    }
  }

  /** The scan over a text ends at its line end, or one byte further after an odd run of CRs. */
  lemma {:induction false} ScanText(s: string, i: nat, text: string, e: nat)
    requires e <= |text| && '\n' !in text && Reads(s, i, text) && i + |text| + 1 < |s|
    requires text != "" && text[|text| - 1] == '\r' ==> s[i + |text|] != '\n'
    ensures Scan(s, i + e) == Scan(s, i + |text| + CrRun(text, e) % 2)
    decreases |text| - e
  {
    hide Scan, CrRun, Reads;
    CrRunStep(text, e);
    if e < |text| {
      ReadsAt(s, i, text);
      assert s[i + e] == text[e] != '\n';
      if text[e] != '\r' {
        ScanByte(s, i + e);
        ScanText(s, i, text, e + 1);
      } else {
        assert e + 1 < |text| ==> s[i + e + 1] == text[e + 1] != '\n';
        ScanCr(s, i + e);
        if e + 1 < |text| {
          ScanText(s, i, text, e + 2);
        }
      }
    }
  }

  lemma ScanByte(s: string, i: nat)
    requires i + 1 < |s| && !IsEol(s[i])
    ensures Scan(s, i) == Scan(s, i + 1)
  {
  }

  /** A CR that is not followed by LF is stepped over with the byte after it. */
  lemma ScanCr(s: string, i: nat)
    requires i + 1 < |s| && s[i] == '\r' && s[i + 1] != '\n'
    ensures Scan(s, i) == Scan(s, i + 2)
  {
  }

  /** The scan of a line up to its line end. */
  lemma ReachLineEnd(s: string, i: nat, line: Line, e: nat)
    requires ValidLine(line) && Entered(line, e)
    requires Reads(s, i, line.text) && Reads(s, i + |line.text|, line.eol.Text())
    requires i + |line.text| + |line.eol.Text()| < |s|
    ensures Scan(s, i + e) == Scan(s, i + |line.text| + if TakesCr(line, e) then 1 else 0)
  {
    hide Scan, CrRun;
    ReadsAt(s, i + |line.text|, line.eol.Text());
    if e <= |line.text| {
      ScanText(s, i, line.text, e);
      if line.eol.Lf? {
        NoCrRun(line.text, e);
      }
    }
  }

  lemma {:induction false} NoCrRun(text: string, e: nat)
    requires text != "" && text[|text| - 1] != '\r'
    ensures CrRun(text, e) == 0
    decreases |text| - e
  {
    if e < |text| {
      NoCrRun(text, e + 1);
    }
  }

  lemma LeaveCrLf(s: string, p: nat)
    requires p + 3 < |s| && s[p] == '\r' && s[p + 1] == '\n' && s[p + 2] != '\n'
    requires s[p + 2] == '\r' ==> s[p + 3] != '\n'
    ensures Scan(s, p) == Scan(s, p + 2 + if s[p + 2] == '\r' then 2 else 1)
  {
  }

  lemma LeaveLf(s: string, p: nat)
    requires p + 1 < |s| && s[p] == '\n' && s[p + 1] != '\n'
    ensures Scan(s, p) == Scan(s, p + 2)
  {
  }

  /** The bytes at the start of a line. */
  lemma LineStarts(s: string, j: nat, line: Line)
    requires ValidLine(line) && Reads(s, j, line.text) && Reads(s, j + |line.text|, line.eol.Text())
    ensures j + 1 < |s| && s[j] == line.text[0] != '\n' && (line.text[0] == '\r' ==> s[j + 1] != '\n')
  {
    ReadsAt(s, j, line.text);
    ReadsAt(s, j + |line.text|, line.eol.Text());
    hide Reads;
    assert s[j + |line.text|] == line.eol.Text()[0];
    assert |line.text| > 1 ==> s[j + 1] == line.text[1];
  }

  /** The bytes around the end of a line. */
  lemma LineBytes(s: string, i: nat, line: Line, next: Line)
    requires ValidLine(line) && ValidLine(next)
    requires Reads(s, i, line.text) && Reads(s, i + |line.text|, line.eol.Text())
    requires var j := i + |line.text| + |line.eol.Text()|;
             Reads(s, j, next.text) && Reads(s, j + |next.text|, next.eol.Text())
    ensures var p, j := i + |line.text|, i + |line.text| + |line.eol.Text()|;
      && j + 1 < |s| && s[j] == next.text[0] != '\n' && (next.text[0] == '\r' ==> s[j + 1] != '\n')
      && s[j - 1] == '\n' && (line.eol.CrLf? ==> s[p] == '\r')
  {
    hide Reads, ValidLine;
    ReadsAt(s, i + |line.text|, line.eol.Text());
    LineStarts(s, i + |line.text| + |line.eol.Text()|, next);
  }

  /** The step over a line that is followed by another line. */
  lemma StepLine(s: string, i: nat, line: Line, next: Line, e: nat)
    requires ValidLine(line) && ValidLine(next) && Entered(line, e)
    requires Reads(s, i, line.text) && Reads(s, i + |line.text|, line.eol.Text())
    requires var j := i + |line.text| + |line.eol.Text()|;
             Reads(s, j, next.text) && Reads(s, j + |next.text|, next.eol.Text())
    ensures Scan(s, i + e) == Scan(s, i + |line.text| + |line.eol.Text()| + NextEntry(line, e, next))
    ensures Entered(next, NextEntry(line, e, next))
  {
    hide Scan, Reads, CrRun;
    var p := i + |line.text|;
    LineBytes(s, i, line, next);
    ReachLineEnd(s, i, line, e);
    if Wanted(line, e).CrLf? {
      LeaveCrLf(s, p);
    } else {
      LeaveLf(s, p + |line.eol.Text()| - 1);
    }
  }

  /** The last line, followed by the blank line. */
  lemma LastLine(s: string, i: nat, line: Line, blank: Eol, e: nat)
    requires ValidLine(line) && Entered(line, e)
    requires Reads(s, i, line.text) && Reads(s, i + |line.text|, line.eol.Text())
    requires Reads(s, i + |line.text| + |line.eol.Text()|, blank.Text())
    ensures Scan(s, i + e) == i + |line.text| + |line.eol.Text()| + |blank.Text()| <==> blank == Wanted(line, e)
  {
    ReadsAt(s, i + |line.text|, line.eol.Text());
    ReadsAt(s, i + |line.text| + |line.eol.Text()|, blank.Text());
    ReachLineEnd(s, i, line, e);
  }

  lemma {:induction false} ScanLines(s: string, i: nat, lines: seq<Line>, blank: Eol, e: nat)
    requires lines != [] && ValidLines(lines) && Entered(lines[0], e)
    requires Reads(s, i, Render(lines)) && Reads(s, i + |Render(lines)|, blank.Text())
    ensures Scan(s, i + e) == i + |Render(lines)| + |blank.Text()|
            <==> blank == Wanted(lines[|lines| - 1], LastEntry(lines, e))
    decreases lines
  {
    hide Scan, Reads, Wanted, NextEntry, Entered, ValidLine, LastEntry, Render, Eol.Text;
    LastEntryStep(lines, e);
    LinesNotEmpty(lines);
    LinesParts(s, i, lines);
    var line, rest := lines[0], lines[1..];
    if rest == [] {
      LastLine(s, i, line, blank, e);
    } else {
      var j := i + |line.text| + |line.eol.Text()|;
      LinesParts(s, j, rest);
      StepLine(s, i, line, rest[0], e);
      ScanLines(s, j, rest, blank, NextEntry(line, e, rest[0]));
    }
  }

  /** The first of some lines and the rest. */
  lemma LinesParts(s: string, i: nat, lines: seq<Line>)
    requires lines != [] && Reads(s, i, Render(lines))
    ensures var line, rest := lines[0], Render(lines[1..]);
      && |Render(lines)| == |line.text| + |line.eol.Text()| + |rest| && (|lines| == 1 ==> rest == "")
      && Reads(s, i, line.text) && Reads(s, i + |line.text|, line.eol.Text())
      && Reads(s, i + |line.text| + |line.eol.Text()|, rest)
  {
    hide Reads, Eol.Text;
    var line := lines[0];
    ReadsSplit(s, i, line.text + line.eol.Text(), Render(lines[1..]));
    ReadsSplit(s, i, line.text, line.eol.Text());
  }

  lemma LastEntryStep(lines: seq<Line>, e: nat)
    requires lines != [] && ValidLines(lines)
    ensures forall k :: 0 <= k < |lines| ==> lines[k].text != ""
    ensures LastEntry(lines, e) == if |lines| == 1 then e else LastEntry(lines[1..], NextEntry(lines[0], e, lines[1]))
  {
  }

  lemma LinesNotEmpty(lines: seq<Line>)
    requires ValidLines(lines)
    ensures forall k :: 0 <= k < |lines| ==> lines[k].text != ""
  {
  }

  /** For any header block, whose lines end in any mixture of CR LF and LF and may hold CRs, the
      end is found just past the blank line exactly when the blank line ends as the scan wants: like
      the last line, unless an odd run of CRs before a CR LF makes the scan step over its CR. */
  lemma HeaderEndFound(lines: seq<Line>, blank: Eol, body: string)
    requires lines != [] && ValidLines(lines)
    ensures forall k :: 0 <= k < |lines| ==> lines[k].text != ""
    ensures Scan(Render(lines) + blank.Text() + body, 0) == |Render(lines) + blank.Text()|
            <==> blank == Wanted(lines[|lines| - 1], LastEntry(lines, 0))
  {
    hide Scan, Reads, Render, Wanted, LastEntry, ValidLine;
    LinesNotEmpty(lines);
    var s := Render(lines) + blank.Text() + body;
    ReadsWhole(s);
    ReadsSplit(s, 0, Render(lines) + blank.Text(), body);
    ReadsSplit(s, 0, Render(lines), blank.Text());
    EnteredAtStart(lines[0]);
    ScanLines(s, 0, lines, blank, 0);
  }

  lemma EnteredAtStart(line: Line)
    ensures Entered(line, 0)
  {
  }

  /** A last line without CRs: the blank line has to end like it. */
  lemma PlainLastLine(line: Line, e: nat)
    requires ValidText(line.text) && e <= |line.text|
    ensures ValidLine(line) && Wanted(line, e) == line.eol
  {
    NoCrRun(line.text, e);
  }

  /** Without CRs in the lines, the scan enters every line at its first or second byte. */
  lemma {:induction false} PlainEntry(lines: seq<Line>, e: nat)
    requires lines != [] && e <= 1 && forall k :: 0 <= k < |lines| ==> ValidText(lines[k].text)
    ensures (forall k :: 0 <= k < |lines| ==> lines[k].text != "") && LastEntry(lines, e) <= 1
    decreases |lines|
  {
    if |lines| > 1 {
      PlainEntry(lines[1..], NextEntry(lines[0], e, lines[1]));
    }
  }

  /** One stray CR before the line end hides the blank line; two do not. */
  lemma StrayCrHidesBlankLine()
    ensures Scan("a\r\r\n\r\nb", 0) == 0
    ensures Scan("a\r\r\r\n\r\nb", 0) == 7
  {
    var s, t := "a\r\r\n\r\nb", "a\r\r\r\n\r\nb";
    assert Scan(s, 0) == Scan(s, 1) == Scan(s, 3) == Scan(s, 5) == Scan(s, 7);
    assert Scan(t, 0) == Scan(t, 1) == Scan(t, 3);
  }
}
