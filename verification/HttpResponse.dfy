/**
  `getHTTPResponse`: the response content from the receives of one connection.

  A receive is what one successful call of receivedata () delivered; the list ends
  where the call returned 0 or an error.
 */
module HttpResponse {
  import opened Text
  import opened HttpHeaderScan
  import opened HttpHeaderFields
  import opened HttpChunked
  import HttpServer

  /** The state between receives; `end` is 0 until the end of the headers is found. */
  datatype Conn = Conn(header: string, end: nat, framing: Framing, d: Decoder) {
    /** Nothing is decoded before the headers end, and without chunking the content never
        outgrows a positive Content-Length. */
    predicate Fits() {
      && (end == 0 ==> d == Decoder(0, "", ""))
      && (!framing.chunked && framing.length > 0 ==> |d.content| <= framing.length)
    }
  }

  datatype Step = Go(conn: Conn) | Closed(content: string) | Undefined

  datatype Response = Content(content: string) | UndefinedBehaviour

  const OPENED := Conn("", 0, NO_FRAMING, Decoder(0, "", ""))

  /** The test of Content-Length at the end of a receive. */
  function CheckLength(c: Conn): (s: Step)
    requires c.Fits()
    ensures s.Go? ==> s.conn == c
  {
    if c.framing.length > 0 && |c.d.content| >= c.framing.length then Closed(c.d.content) else Go(c)
  }

  /** The body bytes of one receive. */
  function TakeBody(c: Conn, buf: string): (s: Step)
    requires c.Fits() && c.end != 0
    ensures s.Go? ==> s.conn.Fits() && s.conn == c.(d := s.conn.d)
  {
    if c.framing.chunked then
      match Feed(c.d, buf, 0)
      case More(d) => CheckLength(c.(d := d))
      case Done(content) => Closed(content)
      case Overrun => Undefined
    else
      var room := c.framing.length - |c.d.content|;
      var n := if c.framing.length > 0 && |buf| > room then room else |buf|;
      CheckLength(c.(d := c.d.(content := c.d.content + buf[..n])))
  }

  function Receive(c: Conn, buf: string): (s: Step)
    requires c.Fits()
    ensures s.Go? ==> s.conn.Fits()
  {
    if c.end != 0 then TakeBody(c, buf)
    else
      var h := c.header + buf;
      var e := Scan(h, 0);
      if e == 0 then Go(c.(header := h))
      else TakeBody(Conn(h, e, ParseHeaders(h, e), c.d), h[e..])
  }

  function Respond(c: Conn, receives: seq<string>): Response
    requires c.Fits()
    decreases |receives|
  {
    if receives == [] || receives[0] == "" then Content(c.d.content)
    else
      match Receive(c, receives[0])
      case Go(c') => Respond(c', receives[1..])
      case Closed(content) => Content(content)
      case Undefined => UndefinedBehaviour
  }

  method GetHttpResponse(receives: seq<string>) returns (r: Response)
    ensures r == Respond(OPENED, receives)
  {
    hide Scan, Feed, ParseHeaders;
    var header, endOfHeaders, contentLength, chunked := "", 0, -1, false;
    var d := Decoder(0, "", "");
    var k := 0;
    assert receives[0..] == receives;
    while k < |receives| && |receives[k]| > 0
      invariant k <= |receives|
      invariant Conn(header, endOfHeaders, Framing(contentLength, chunked), d).Fits()
      invariant Respond(OPENED, receives)
             == Respond(Conn(header, endOfHeaders, Framing(contentLength, chunked), d), receives[k..])
    {
      var buf := receives[k];
      assert receives[k..][1..] == receives[k + 1..];
      k := k + 1;
      if endOfHeaders == 0 {
        header := header + buf;
        endOfHeaders := FindHeaderEnd(header);
        if endOfHeaders == 0 {
          continue;
        }
        contentLength, chunked := ReadHeaders(header, endOfHeaders);
        buf := header[endOfHeaders..];
      }
      if chunked {
        var o := FeedReceive(d, buf);
        match o
        case Done(content) => return Content(content);
        case Overrun => return UndefinedBehaviour;
        case More(d') => d := d';
      } else {
        var n := |buf|;
        if contentLength > 0 && |d.content| + n > contentLength {
          n := contentLength - |d.content|;
        }
        d := d.(content := d.content + buf[..n]);
      }
      if contentLength > 0 && |d.content| >= contentLength {
        break;
      }
    }
    r := Content(d.content);
  }

  // ----- the body does not depend on the split

  ghost predicate AllReceived(receives: seq<string>) {
    forall k :: 0 <= k < |receives| ==> receives[k] != ""
  }

  /** The body in parts: what came with the headers, possibly nothing, and the later receives. */
  function RespondBody(c: Conn, parts: seq<string>): Response
    requires c.Fits() && c.end != 0
    decreases |parts|
  {
    if parts == [] then Content(c.d.content)
    else
      match TakeBody(c, parts[0])
      case Go(c') => RespondBody(c', parts[1..])
      case Closed(content) => Content(content)
      case Undefined => UndefinedBehaviour
  }

  lemma {:induction false} RespondIsRespondBody(c: Conn, receives: seq<string>)
    requires c.Fits() && c.end != 0 && AllReceived(receives)
    ensures Respond(c, receives) == RespondBody(c, receives)
    decreases |receives|
  {
    if receives != [] {
      var s := TakeBody(c, receives[0]);
      if s.Go? {
        RespondIsRespondBody(s.conn, receives[1..]);
      }
    }
  }

  /** How many parts of a chunked body are taken: those up to the first after which the content has
      reached a positive Content-Length, or all. */
  function Taken(length: int, r: Reader, parts: seq<string>): (k: nat)
    ensures k <= |parts|
    decreases |parts|
  {
    if parts == [] then 0
    else
      var r' := Run(r, parts[0], 0);
      if length > 0 && |r'.content| >= length then 1 else 1 + Taken(length, r', parts[1..])
  }

  /** The chunk data in the parts that are taken. */
  function TakenContent(length: int, r: Reader, parts: seq<string>): string {
    Run(r, Flatten(parts[..Taken(length, r, parts)]), 0).content
  }

  lemma TakenStep(length: int, r: Reader, parts: seq<string>)
    requires parts != []
    ensures var r', rest := Run(r, parts[0], 0), parts[1..];
      TakenContent(length, r, parts)
        == if length > 0 && |r'.content| >= length then r'.content else TakenContent(length, r', rest)
  {
    hide Run;
    var k, first, rest := Taken(length, r, parts), parts[0], parts[1..];
    assert parts[..k] == [first] + rest[..k - 1] && ([first] + rest[..k - 1])[1..] == rest[..k - 1];
    RunConcat(r, first, Flatten(rest[..k - 1]), 0);
    if k == 1 {
      NoBytes(Run(r, first, 0));
      assert rest[..0] == [];
    }
  }

  lemma NoBytes(r: Reader)
    ensures Run(r, "", 0) == r
  {
  }

  lemma {:induction false} TakenFinished(length: int, r: Reader, parts: seq<string>)
    requires r.phase.Finished?
    ensures TakenContent(length, r, parts) == r.content
  {
    RunStays(r, Flatten(parts[..Taken(length, r, parts)]), 0);
  }

  /** A chunked body gives the data in the parts that are taken. */
  lemma {:induction false} ChunkedBody(c: Conn, r: Reader, parts: seq<string>)
    requires c.end != 0 && c.framing.chunked && c.d == Forget(r) && Live(r)
    requires !Run(r, Flatten(parts), 0).phase.Outside? && SafeSplit(r, parts)
    ensures RespondBody(c, parts) == Content(TakenContent(c.framing.length, r, parts))
    decreases |parts|
  {
    hide Feed, Run, TakenContent;
    if parts == [] {
      TakenNone(c.framing.length, r);
    } else {
      var r', rest := Run(r, parts[0], 0), parts[1..];
      TakenStep(c.framing.length, r, parts);
      RunConcat(r, parts[0], Flatten(rest), 0);
      if r'.phase.Outside? { RunStays(r', Flatten(rest), 0); }
      FeedFollows(r, parts[0], 0);
      if r'.phase.Finished? {
        TakenFinished(c.framing.length, r', rest);
      } else if c.framing.length <= 0 || |r'.content| < c.framing.length {
        ChunkedBody(c.(d := Forget(r')), r', rest);
      }
    }
  }

  lemma TakenNone(length: int, r: Reader)
    ensures TakenContent(length, r, []) == r.content == Forget(r).content
  {
    NoBytes(r);
  }

  lemma {:induction false} RunGrows(r: Reader, s: string, i: nat)
    requires i <= |s|
    ensures r.content <= Run(r, s, i).content
    decreases |s| - i
  {
    if i < |s| {
      RunGrows(Next(r, s[i]), s, i + 1);
    }
  }

  /** The content taken is a first part of the whole content, and all of it or as long as the length. */
  lemma {:induction false} TakenEnough(length: int, r: Reader, parts: seq<string>)
    ensures var whole, taken := Run(r, Flatten(parts), 0).content, TakenContent(length, r, parts);
      taken <= whole && (taken == whole || (length > 0 && |taken| >= length))
    decreases |parts|
  {
    hide Run, TakenContent;
    if parts == [] {
      TakenNone(length, r);
      NoBytes(r);
    } else {
      var r', rest := Run(r, parts[0], 0), parts[1..];
      TakenStep(length, r, parts);
      RunConcat(r, parts[0], Flatten(rest), 0);
      RunGrows(r', Flatten(rest), 0);
      TakenEnough(length, r', rest);
    }
  }

  /** What a response without chunking delivers out of the body bytes that come. */
  function Limited(length: int, bytes: string): string {
    if length > 0 && |bytes| > length then bytes[..length] else bytes
  }

  lemma {:induction false} PlainBody(c: Conn, parts: seq<string>)
    requires c.end != 0 && !c.framing.chunked && c.Fits()
    requires c.framing.length > 0 ==> |c.d.content| < c.framing.length
    ensures RespondBody(c, parts) == Content(Limited(c.framing.length, c.d.content + Flatten(parts)))
    decreases |parts|
  {
    var content, length := c.d.content, c.framing.length;
    if parts == [] {
      assert content + Flatten(parts) == content;
    } else {
      var buf, rest := parts[0], Flatten(parts[1..]);
      assert content + Flatten(parts) == content + buf + rest;
      if length > 0 && |content| + |buf| >= length {
        assert (content + buf + rest)[..length] == content + buf[..length - |content|];
      } else {
        assert buf[..|buf|] == buf;
        PlainBody(c.(d := c.d.(content := content + buf)), parts[1..]);
      }
    }
  }

  // ----- the headers do not depend on the split

  /** The body in the parts it comes in, when the header has `n` bytes: what came with the end of the
      header, possibly nothing, and the later receives. */
  function BodyParts(before: string, receives: seq<string>, n: nat): seq<string>
    decreases |receives|
  {
    if |before| >= n then [before[n..]] + receives
    else if receives == [] then []
    else BodyParts(before + receives[0], receives[1..], n)
  }

  /** On any byte stream with a header end, the receives are read as the headers, found at the
      same place however they were split, and then the body in its parts. */
  lemma {:induction false} HeadThenBody(s: string, before: string, receives: seq<string>)
    returns (h: string, parts: seq<string>)
    requires AllReceived(receives) && before + Flatten(receives) == s
    requires |before| < Scan(s, 0)
    ensures h <= s && Scan(s, 0) <= |h| && Flatten(parts) == s[Scan(s, 0)..]
    ensures parts == BodyParts(before, receives, Scan(s, 0)) && parts != [] && parts[0] == h[Scan(s, 0)..]
    ensures var d := Decoder(0, "", "");
            var c := Conn(h, Scan(s, 0), ParseHeaders(h, Scan(s, 0)), d);
            Respond(Conn(before, 0, NO_FRAMING, d), receives) == RespondBody(c, parts)
    decreases |receives|
  {
    hide Scan, ParseHeaders, Feed;
    var e := Scan(s, 0);
    ScanBounds(s);
    assert |Flatten(receives)| == |s| - |before| > 0;
    var first, rest := receives[0], receives[1..];
    h := before + first;
    assert h + Flatten(rest) == s;
    assert s[..|h|] == h;
    ScanPrefix(s, |h|, 0);
    if |h| < e {
      h, parts := HeadThenBody(s, h, rest);
    } else {
      parts := [h[e..]] + rest;
      assert parts[1..] == rest;
      assert h[e..] + Flatten(rest) == s[e..];
      var c := Conn(h, e, ParseHeaders(h, e), Decoder(0, "", ""));
      var step := TakeBody(c, h[e..]);
      if step.Go? {
        RespondIsRespondBody(step.conn, rest);
      }
    }
  }

  lemma ScanBounds(s: string)
    ensures Scan(s, 0) <= |s|
  {
  }

  /** The body bytes that come with the end of the header. */
  function Early(receives: seq<string>, n: nat): string {
    var parts := BodyParts("", receives, n);
    if parts == [] then "" else parts[0]
  }

  /** The framing that is read for a response with these header lines. */
  function FramingRead(lines: seq<HeaderLine>, receives: seq<string>): Framing {
    ReadBlock(lines, Early(receives, |RenderHeader(lines)|), NO_FRAMING)
  }

  /** A response with a header block is read as that header block and its body. */
  lemma ReadResponse(lines: seq<HeaderLine>, body: string, receives: seq<string>) returns (h: string)
    requires ValidHeader(lines) && AllReceived(receives)
    requires Flatten(receives) == RenderHeader(lines) + body
    ensures var e := |RenderHeader(lines)|;
            var parts := BodyParts("", receives, e);
            var c := Conn(h, e, FramingRead(lines, receives), Decoder(0, "", ""));
            Flatten(parts) == body && c.end != 0 && Respond(OPENED, receives) == RespondBody(c, parts)
  {
    hide Scan, ParseHeaders, ValidHeader, RenderHeader, Respond, RespondBody, Meaning, ReadBlock, LengthKept, BodyParts;
    var head := RenderHeader(lines);
    HeaderBlockFound(lines, body);
    HeaderNotEmpty(lines);
    assert "" + Flatten(receives) == head + body;
    var parts;
    h, parts := HeadThenBody(head + body, "", receives);
    FirstPart(head, body);
    StartsWith(head, body, h);
    HeaderBlockRead(lines, h[|head|..]);
  }

  lemma FirstPart(head: string, first: string)
    ensures (head + first)[|head|..] == first
  {
  }

  lemma StartsWith(head: string, body: string, h: string)
    requires h <= head + body && |head| <= |h|
    ensures h == head + h[|head|..]
  {
    assert h[..|head|] == (head + body)[..|head|] == head;
  }

  lemma HeaderNotEmpty(lines: seq<HeaderLine>)
    ensures RenderHeader(lines) != ""
  {
  }

  // ----- the main results

  /** A chunked response, complete or cut short at any byte and split into receives in any way that
      does not resume an extension at a hex digit, gives the chunk data in the parts that are taken.
      That is exactly the chunk data that came if and only if those parts have as much of it, and so
      it is for every split when there is no positive Content-Length below the amount of data. */
  lemma ChunkedResponse(lines: seq<HeaderLine>, body: string, receives: seq<string>)
    requires ValidHeader(lines) && AllReceived(receives)
    requires Flatten(receives) == RenderHeader(lines) + body
    requires FramingRead(lines, receives).chunked && !Run(START, body, 0).phase.Outside?
    requires SafeSplit(START, BodyParts("", receives, |RenderHeader(lines)|))
    ensures var n, whole := FramingRead(lines, receives).length, Run(START, body, 0).content;
      var taken := TakenContent(n, START, BodyParts("", receives, |RenderHeader(lines)|));
      && Respond(OPENED, receives) == Content(taken) && taken <= whole
      && (Respond(OPENED, receives) == Content(whole) <==> |taken| == |whole|)
      && (n <= 0 || |whole| <= n ==> Respond(OPENED, receives) == Content(whole))
      && (Respond(OPENED, receives) != Content(whole) ==> |taken| >= n)
  {
    hide ValidHeader, RenderHeader, FramingRead, BodyParts, Respond, RespondBody, Run, SafeSplit, TakenContent;
    var h := ReadResponse(lines, body, receives);
    var c := Conn(h, |RenderHeader(lines)|, FramingRead(lines, receives), Decoder(0, "", ""));
    var parts := BodyParts("", receives, |RenderHeader(lines)|);
    ChunkedBody(c, START, parts);
    TakenEnough(c.framing.length, START, parts);
  }

  /** The decoder inverts the encoder for every choice of chunks and every split, up to the first part
      after which a positive Content-Length is reached. */
  lemma ChunkedRoundTrip(lines: seq<HeaderLine>, chunks: seq<string>, extra: string, receives: seq<string>)
    requires ValidHeader(lines) && AllReceived(receives) && HttpServer.ValidChunks(chunks)
    requires Flatten(receives) == RenderHeader(lines) + (HttpServer.Encode(chunks) + extra)
    requires FramingRead(lines, receives).chunked
    ensures var n, r := FramingRead(lines, receives).length, Respond(OPENED, receives);
      && r.Content? && r.content <= Flatten(chunks) && (r.content == Flatten(chunks) || |r.content| >= n)
      && (n <= 0 || |Flatten(chunks)| <= n ==> r.content == Flatten(chunks))
  {
    hide ValidHeader, RenderHeader, FramingRead, BodyParts, Respond, Run, SafeSplit, Extends, TakenContent,
         HttpServer.Encode;
    var h := ReadResponse(lines, HttpServer.Encode(chunks) + extra, receives);
    HttpServer.EncodeRoundTrip(chunks, extra);
    SafeWithoutExtension(START, BodyParts("", receives, |RenderHeader(lines)|));
    ChunkedResponse(lines, HttpServer.Encode(chunks) + extra, receives);
  }

  /** Where the content of a body reaches a length it grows beyond. */
  lemma {:induction false} ReachLength(r: Reader, s: string, i: nat, n: nat) returns (j: nat)
    requires i <= |s| && |r.content| < n < |Run(r, s, i).content|
    ensures i < j < |s| && |Run(r, s[..j], i).content| == n && !Run(r, s[..j], i).phase.Extension?
    decreases |s| - i
  {
    var r' := Next(r, s[i]);
    if |r'.content| == n {
      j := i + 1;
      assert s[..j][i] == s[i] && Run(r, s[..j], i) == r';
    } else {
      j := ReachLength(r', s, i + 1, n);
      assert s[..j][i] == s[i] && Run(r, s[..j], i) == Run(r', s[..j], i + 1);
    }
  }

  /** With more data than a positive Content-Length, some split loses all the data after that length. */
  lemma LengthCutsShort(lines: seq<HeaderLine>, body: string) returns (receives: seq<string>)
    requires ValidHeader(lines) && !Run(START, body, 0).phase.Outside?
    requires Meaning(lines, NO_FRAMING).chunked
    requires 0 < Meaning(lines, NO_FRAMING).length < |Run(START, body, 0).content|
    ensures AllReceived(receives) && Flatten(receives) == RenderHeader(lines) + body
    ensures Respond(OPENED, receives)
         == Content(Run(START, body, 0).content[..Meaning(lines, NO_FRAMING).length])
  {
    hide ValidHeader, RenderHeader, Respond, Run, Meaning, ReadBlock, LengthKept, HasLength;
    var n, head := Meaning(lines, NO_FRAMING).length, RenderHeader(lines);
    var j := ReachLength(START, body, 0, n);
    var first, rest := body[..j], body[j..];
    assert body == first + rest;
    receives := [head + first, rest];
    HeaderNotEmpty(lines);
    TwoParts(head, body, j);
    ReadBlockMeans(lines, Early(receives, |head|), NO_FRAMING, NO_FRAMING);
    RunConcat(START, first, rest, 0);
    RunGrows(Run(START, first, 0), rest, 0);
    SafeHere(START, first, rest);
    ChunkedResponse(lines, body, receives);
    TakenFirst(n, START, [first, rest]);
  }

  /** A header with some of the body, and the rest. */
  lemma TwoParts(head: string, body: string, j: nat)
    requires head != "" && j <= |body|
    ensures Flatten([head + body[..j], body[j..]]) == head + body
    ensures BodyParts("", [head + body[..j], body[j..]], |head|) == [body[..j], body[j..]]
  {
    hide Flatten, BodyParts;
    var s, rest := head + body[..j], body[j..];
    TwoJoined(s, rest);
    CutJoined(head, body, j);
    PartsFromFirst(s, rest, |head|);
    FirstPart(head, body[..j]);
  }

  lemma CutJoined(head: string, body: string, j: nat)
    requires j <= |body|
    ensures head + body[..j] + body[j..] == head + body
  {
  }

  lemma TwoJoined(a: string, b: string)
    ensures Flatten([a, b]) == a + b
  {
    assert [a, b][1..] == [b] && [b][1..] == [];
    assert Flatten([b]) == b + "" == b;
  }

  lemma PartsFromFirst(s: string, rest: string, n: nat)
    requires 0 < n <= |s|
    ensures BodyParts("", [s, rest], n) == [s[n..], rest]
  {
    assert "" + s == s && [s, rest][1..] == [rest];
    assert BodyParts(s, [rest], n) == [s[n..]] + [rest];
  }

  lemma SafeHere(r: Reader, first: string, rest: string)
    requires !r.phase.Extension? && !Run(r, first, 0).phase.Extension?
    ensures SafeSplit(r, [first, rest])
  {
    hide Run;
    var parts, r' := [first, rest], Run(r, first, 0);
    assert parts[1..] == [rest] && [rest][1..] == [];
    assert SafeSplit(Run(r', rest, 0), []);
    assert SafeSplit(r', [rest]);
  }

  lemma TakenFirst(length: int, r: Reader, parts: seq<string>)
    requires parts != [] && 0 < length <= |Run(r, parts[0], 0).content|
    ensures TakenContent(length, r, parts) == Run(r, parts[0], 0).content
  {
    TakenStep(length, r, parts);
  }

  /** Without chunking the content is the body cut to the length read, if that is positive, whatever
      follows, and the whole body up to the end of the connection otherwise. It is what the lines
      mean (section 3.3.3 of RFC 7230, except that a Content-Length of 0 counts as none) if and only
      if the length is kept, or the number read instead cuts nothing off. */
  lemma PlainResponse(lines: seq<HeaderLine>, body: string, receives: seq<string>)
    requires ValidHeader(lines) && AllReceived(receives)
    requires Flatten(receives) == RenderHeader(lines) + body
    requires !Meaning(lines, NO_FRAMING).chunked
    ensures var n := FramingRead(lines, receives).length;
      && Respond(OPENED, receives) == Content(Limited(n, body))
      && (Respond(OPENED, receives) == Content(Limited(Meaning(lines, NO_FRAMING).length, body))
          <==> LengthKept(lines, Early(receives, |RenderHeader(lines)|)) || n <= 0 || |body| <= n)
  {
    hide ValidHeader, RenderHeader, BodyParts, Respond, RespondBody, Meaning, ReadBlock, LengthKept, Early, HasLength;
    var h := ReadResponse(lines, body, receives);
    var early := Early(receives, |RenderHeader(lines)|);
    ReadBlockMeans(lines, early, NO_FRAMING, NO_FRAMING);
    var c := Conn(h, |RenderHeader(lines)|, FramingRead(lines, receives), Decoder(0, "", ""));
    PlainBody(c, BodyParts("", receives, |RenderHeader(lines)|));
    assert "" + body == body;
  }

  /** Without chunking, a positive Content-Length, written in decimal, delivers that many bytes of the
      body, or all that came. */
  lemma LengthDelivered(before: seq<HeaderLine>, pad: string, n: nat, after: seq<HeaderLine>, body: string,
                        receives: seq<string>)
    requires n > 0 && (forall k :: 0 <= k < |pad| ==> pad[k] == ' ' || pad[k] == '\t') && !HasLength(after)
    requires var lines := before + [Field("Content-Length", pad, Dec(n))] + after;
      && ValidHeader(lines) && AllReceived(receives) && Flatten(receives) == RenderHeader(lines) + body
      && !Meaning(lines, NO_FRAMING).chunked
    ensures Respond(OPENED, receives) == Content(if |body| < n then body else body[..n])
  {
    hide ValidHeader, RenderHeader, Respond, Meaning, ReadBlock, LengthKept, Early, HasLength, FramingRead, Dec;
    var lines := before + [LengthLine(pad, n)] + after;
    LengthMeant(before, pad, n, after, Early(receives, |RenderHeader(lines)|));
    PlainResponse(lines, body, receives);
    assert |body| == n ==> body[..n] == body;
  }

  /** The framing read is the framing meant exactly when the length is kept. */
  lemma FramingMeant(lines: seq<HeaderLine>, receives: seq<string>)
    ensures FramingRead(lines, receives) == Meaning(lines, NO_FRAMING)
       <==> LengthKept(lines, Early(receives, |RenderHeader(lines)|))
  {
    hide RenderHeader, Early, Meaning, ReadBlock, LengthKept;
    ReadBlockMeans(lines, Early(receives, |RenderHeader(lines)|), NO_FRAMING, NO_FRAMING);
  }

  // ----- the test server

  const SERVER_LINES := [
    Plain("HTTP/1.1 200 OK"),
    Field("Content-Type", " ", "text/plain"),
    Field("Transfer-Encoding", " ", "chunked")
  ]

  lemma ServerHeader()
    ensures RenderHeader(SERVER_LINES) == HttpServer.HEAD
  {
    hide RenderHeader, HeaderLine.Text;
    var l1, l2, l3 := SERVER_LINES[0], SERVER_LINES[1], SERVER_LINES[2];
    assert SERVER_LINES[1..] == [l2, l3] && [l2, l3][1..] == [l3] && [l3][1..] == [];
    RenderStep(SERVER_LINES);
    RenderStep([l2, l3]);
    RenderStep([l3]);
    RenderStep([]);
    ServerTexts();
  }

  lemma RenderStep(lines: seq<HeaderLine>)
    ensures RenderHeader(lines) == if lines == [] then "\r\n" else lines[0].Text() + "\r\n" + RenderHeader(lines[1..])
  {
  }

  lemma ServerTexts()
    ensures SERVER_LINES[0].Text() + "\r\n" == "HTTP/1.1 200 OK\r\n"
    ensures SERVER_LINES[1].Text() + "\r\n" == "Content-Type: text/plain\r\n"
    ensures SERVER_LINES[2].Text() + "\r\n" == "Transfer-Encoding: chunked\r\n"
  {
  }

  lemma ServerTypeField()
    ensures SERVER_LINES[1].Meaning(NO_FRAMING) == NO_FRAMING
  {
    hide SameNoCase;
    var ct := "Content-Type";
    SameNoCaseIsPrefix(ct, CONTENT_LENGTH);
    assert Lower(ct[8]) == 't' && Lower(CONTENT_LENGTH[8]) == 'l';
    SameNoCaseIsPrefix(ct, TRANSFER_ENCODING);
    assert Lower(ct[0]) == 'c' && Lower(TRANSFER_ENCODING[0]) == 't';
  }

  lemma ServerEncodingField()
    ensures SERVER_LINES[2].Meaning(NO_FRAMING) == Framing(-1, true)
  {
    hide SameNoCase;
    var te := "Transfer-Encoding";
    SameNoCaseIsPrefix(te, CONTENT_LENGTH);
    SameNoCaseIsPrefix(te, TRANSFER_ENCODING);
    assert Lower(te[0]) == 't' && Lower(te[9]) == 'e';
    SameNoCaseIsPrefix(CHUNKED, CHUNKED);
  }

  lemma ServerStatusValid()
    ensures SERVER_LINES[0].WellFormed()
  {
    hide SameNoCase, ValidText;
    StatusValid(SERVER_LINES[0].text);
  }

  lemma StatusValid(text: string)
    requires text == "HTTP/1.1 200 OK"
    ensures ValidText(text) && ':' !in text
  {
  }

  lemma ServerTypeValid()
    ensures SERVER_LINES[1].WellFormed()
  {
    hide SameNoCase;
    NameValid("Content-Type");
    hide ValidText;
  }

  lemma ServerEncodingValid()
    ensures SERVER_LINES[2].WellFormed()
  {
    hide SameNoCase;
    NameValid("Transfer-Encoding");
    hide ValidText;
  }

  lemma NameValid(name: string)
    requires name == "Content-Type" || name == "Transfer-Encoding"
    ensures ValidText(name) && ':' !in name
  {
  }

  lemma ServerLinesValid()
    ensures ValidHeader(SERVER_LINES)
  {
    hide HeaderLine.WellFormed;
    ServerStatusValid();
    ServerTypeValid();
    ServerEncodingValid();
  }

  lemma ServerFraming(body: string)
    ensures ReadBlock(SERVER_LINES, body, NO_FRAMING) == Framing(-1, true)
  {
    hide SameNoCase, RenderHeader, Atoi;
    ServerTypeField();
    ServerEncodingField();
    var l1, l2, l3 := SERVER_LINES[0], SERVER_LINES[1], SERVER_LINES[2];
    assert SERVER_LINES[1..] == [l2, l3] && [l2, l3][1..] == [l3] && [l3][1..] == [];
    assert ReadBlock([l3], body, NO_FRAMING) == Framing(-1, true);
    assert ReadBlock([l2, l3], body, NO_FRAMING) == Framing(-1, true);
  }

  /** What the test server sends for a content, read back by the client, is that content. */
  lemma ServerRoundTrip(content: string, chunks: seq<string>, receives: seq<string>)
    requires HttpServer.IsResponse(Flatten(receives), content, chunks)
    requires AllReceived(receives)
    ensures Respond(OPENED, receives) == Content(content)
  {
    hide ValidHeader, RenderHeader, ReadBlock, Respond, HttpServer.Encode, Early;
    ServerHeader();
    ServerLinesValid();
    ServerFraming(Early(receives, |RenderHeader(SERVER_LINES)|));
    assert HttpServer.Encode(chunks) + "" == HttpServer.Encode(chunks);
    ChunkedRoundTrip(SERVER_LINES, chunks, "", receives);
  }
}
