/**
  The chunked encoder of the HTTP test server, and the round trip through the coding.
 */
module HttpServer {
  import opened HttpChunked

  /** printf "%x" */
  function Hex(n: nat): (s: string)
    ensures s != ""
  {
    if n < 16 then ["0123456789abcdef"[n]] else Hex(n / 16) + ["0123456789abcdef"[n % 16]]
  }

  function Pow16(k: nat): nat {
    if k == 0 then 1 else 16 * Pow16(k - 1)
  }

  lemma {:induction false} HexRoundTrip(n: nat)
    ensures HexValue(Hex(n)) == n
    ensures forall k :: 0 <= k < |Hex(n)| ==> IsHex(Hex(n)[k])
  {
    HexDigitRoundTrip(n % 16);
    if n >= 16 {
      HexRoundTrip(n / 16);
      assert Hex(n)[..|Hex(n)| - 1] == Hex(n / 16);
    } else {
      assert Hex(n)[..0] == "";
    }
  }

  lemma HexDigitRoundTrip(d: nat)
    requires d < 16
    ensures HexDigit("0123456789abcdef"[d]) == d && IsHex("0123456789abcdef"[d])
  {
    var c := "0123456789abcdef"[d];
    assert d < 10 ==> c == (d + '0' as int) as char;
    assert d >= 10 ==> c == (d - 10 + 'a' as int) as char;
  }

  lemma {:induction false} HexLength(n: nat, k: nat)
    requires k > 0 && n < Pow16(k)
    ensures |Hex(n)| <= k
  {
    if n >= 16 {
      HexLength(n / 16, k - 1);
    }
  }

  function Piece(chunk: string): string {
    Hex(|chunk|) + "\r\n" + chunk + "\r\n"
  }

  function Pieces(chunks: seq<string>): string {
    if chunks == [] then "" else Pieces(chunks[..|chunks| - 1]) + Piece(chunks[|chunks| - 1])
  }

  /** A chunked body: the chunks, the last chunk and the empty trailer. */
  function Encode(chunks: seq<string>): string {
    Pieces(chunks) + "0\r\n\r\n"
  }

  ghost predicate ValidChunks(chunks: seq<string>) {
    forall k :: 0 <= k < |chunks| ==> 0 < |chunks[k]| < SIZE_LIMIT
  }

  const HEAD := "HTTP/1.1 200 OK\r\n" + ("Content-Type: text/plain\r\n" + ("Transfer-Encoding: chunked\r\n" + "\r\n"))

  lemma AppendPiece(head: string, before: seq<string>, chunk: string)
    ensures Pieces(before + [chunk]) == Pieces(before) + Piece(chunk)
    ensures head + Pieces(before) + Piece(chunk) == head + Pieces(before + [chunk])
  {
    assert (before + [chunk])[..|before|] == before;
  }

  /** The size of the next chunk from index `i` on, given what rand () returned. */
  function ChunkSize(content: string, i: nat, drawn: nat): (n: nat)
    requires i < |content|
    ensures 0 < n <= 199 && i + n <= |content|
  {
    var n := drawn % 199 + 1;
    if i + n > |content| then |content| - i else n
  }

  /** The chunks from index `i` on; `draw` stands for the results of rand (), call by call. */
  function Drawn(content: string, i: nat, draw: nat -> nat, calls: nat): seq<string>
    requires i <= |content|
    decreases |content| - i
  {
    if i == |content| then []
    else
      var n := ChunkSize(content, i, draw(calls));
      [content[i..i + n]] + Drawn(content, i + n, draw, calls + 1)
  }

  /** The buffer that is allocated for a response. */
  function Capacity(content: string): nat {
    256 + |content| + |content| / 16
  }

  /** What building a response leads to; past the buffer the behaviour is undefined. */
  datatype Built = Response(text: string) | PastBuffer

  /** The chunking loop. No length is checked while the pieces are written: the memory past the
      buffer is written to exactly when the pieces do not all fit. */
  method AppendChunks(head: string, content: string, draw: nat -> nat) returns (response: string)
    ensures response == head + Encode(Drawn(content, 0, draw, 0))
  {
    hide Pieces, Hex, Drawn;
    ghost var chunks: seq<string>;
    response, chunks := head, [];
    NoPieces();
    var i, calls := 0, 0;
    while i < |content|
      invariant i <= |content|
      invariant response == head + Pieces(chunks)
      invariant chunks + Drawn(content, i, draw, calls) == Drawn(content, 0, draw, 0)
    {
      var n := draw(calls) % 199 + 1;
      if i + n > |content| {
        n := |content| - i;
      }
      assert n == ChunkSize(content, i, draw(calls));
      calls := calls + 1;
      var chunk := content[i..i + n];
      AppendPiece(head, chunks, chunk);
      DrawnStep(content, i, draw, calls - 1, chunks);
      response := response + (Hex(n) + "\r\n" + chunk + "\r\n");
      chunks := chunks + [chunk];
      i := i + n;
    }
    DrawnEnd(content, draw, calls);
    assert chunks + [] == chunks;
    response := response + "0\r\n\r\n";
  }

  lemma NoPieces()
    ensures Pieces([]) == ""
  {
  }

  lemma DrawnStep(content: string, i: nat, draw: nat -> nat, calls: nat, before: seq<string>)
    requires i < |content|
    ensures var n := ChunkSize(content, i, draw(calls));
            before + Drawn(content, i, draw, calls)
            == before + [content[i..i + n]] + Drawn(content, i + n, draw, calls + 1)
  {
  }

  lemma DrawnEnd(content: string, draw: nat -> nat, calls: nat)
    ensures Drawn(content, |content|, draw, calls) == []
  {
  }

  /** The chunks drawn are pieces of 1 to 199 bytes that join to the content. */
  lemma {:induction false} DrawnChunks(content: string, i: nat, draw: nat -> nat, calls: nat)
    requires i <= |content|
    ensures var chunks := Drawn(content, i, draw, calls);
      && Flatten(chunks) == content[i..]
      && forall k :: 0 <= k < |chunks| ==> 0 < |chunks[k]| <= 199
    decreases |content| - i
  {
    hide Flatten;
    if i < |content| {
      var n := ChunkSize(content, i, draw(calls));
      DrawnChunks(content, i + n, draw, calls + 1);
      FirstChunk(content[i..i + n], Drawn(content, i + n, draw, calls + 1));
      SplitAt(content, i, n);
    } else {
      NoChunk();
    }
  }

  lemma NoChunk()
    ensures Flatten([]) == ""
  {
  }

  lemma FirstChunk(chunk: string, rest: seq<string>)
    ensures Flatten([chunk] + rest) == chunk + Flatten(rest)
  {
    assert ([chunk] + rest)[1..] == rest;
  }

  lemma SplitAt(content: string, i: nat, n: nat)
    requires i + n <= |content|
    ensures content[i..] == content[i..i + n] + content[i + n..]
  {
  }

  /** Every chunk but the last has the size drawn for it. */
  lemma {:induction false} DrawnSize(content: string, i: nat, draw: nat -> nat, calls: nat, k: nat)
    requires i <= |content| && k + 1 < |Drawn(content, i, draw, calls)|
    ensures |Drawn(content, i, draw, calls)[k]| == draw(calls + k) % 199 + 1
    decreases k
  {
    var n := ChunkSize(content, i, draw(calls));
    if k > 0 {
      DrawnSize(content, i + n, draw, calls + 1, k - 1);
    }
  }

  lemma {:induction false} FlattenAppend(chunks: seq<string>, chunk: string)
    ensures Flatten(chunks + [chunk]) == Flatten(chunks) + chunk
    decreases |chunks|
  {
    if chunks == [] {
      assert [chunk][1..] == [] && chunks + [chunk] == [chunk];
    } else {
      assert (chunks + [chunk])[1..] == chunks[1..] + [chunk];
      FlattenAppend(chunks[1..], chunk);
    }
  }

  /** `response` is the server's header and the chunked coding of `content`. */
  ghost predicate IsResponse(response: string, content: string, chunks: seq<string>) {
    && response == HEAD + Encode(chunks) && Flatten(chunks) == content
    && forall k :: 0 <= k < |chunks| ==> 0 < |chunks[k]| <= 199
  }

  /** The whole response of the test server for `content`: the coding of the chunks drawn, if and
      only if that fits the buffer. */
  method BuildChunkedResponse(content: string, draw: nat -> nat) returns (r: Built)
    ensures var chunks := Drawn(content, 0, draw, 0);
      && (r.PastBuffer? <==> |HEAD| + |Encode(chunks)| > Capacity(content))
      && (r.Response? ==> IsResponse(r.text, content, chunks))
  {
    var response := AppendChunks(HEAD, content, draw);
    DrawnChunks(content, 0, draw, 0);
    assert content[0..] == content;
    r := if |response| > Capacity(content) then PastBuffer else Response(response);
  }

  /** The length of the pieces of chunks of one byte each. */
  lemma {:induction false} OneByteLength(content: string, i: nat, draw: nat -> nat, calls: nat, before: seq<string>)
    requires i <= |content| && forall k :: draw(k) == 0
    ensures |Pieces(before + Drawn(content, i, draw, calls))| == |Pieces(before)| + 6 * (|content| - i)
    decreases |content| - i
  {
    hide Pieces, Drawn, Piece;
    if i == |content| {
      DrawnEnd(content, draw, calls);
      assert before + [] == before;
    } else {
      var chunk := content[i..i + 1];
      assert draw(calls) == 0 && ChunkSize(content, i, 0) == 1;
      AppendPiece("", before, chunk);
      DrawnStep(content, i, draw, calls, before);
      OneByteLength(content, i + 1, draw, calls + 1, before + [chunk]);
      OneBytePiece(chunk);
    }
  }

  lemma OneBytePiece(chunk: string)
    requires |chunk| == 1
    ensures |Piece(chunk)| == 6
  {
  }

  /** When every draw is the least, the response overruns its buffer for 37 bytes and more. */
  lemma OneByteDrawsOverrun(content: string, draw: nat -> nat)
    requires |content| >= 37 && forall k :: draw(k) == 0
    ensures |HEAD| + |Encode(Drawn(content, 0, draw, 0))| > Capacity(content)
  {
    OneByteLength(content, 0, draw, 0, []);
    assert [] + Drawn(content, 0, draw, 0) == Drawn(content, 0, draw, 0);
    assert |HEAD| == 73;
  }

  lemma PieceLength(chunk: string)
    requires 0 < |chunk| <= 199
    ensures |Piece(chunk)| <= 6 * |chunk|
  {
    assert Pow16(2) == 16 * Pow16(1) == 256 * Pow16(0) && Pow16(1) == 16 * Pow16(0);
    HexLength(|chunk|, if |chunk| < 16 then 1 else 2);
  }

  lemma {:induction false} DrawnLength(content: string, i: nat, draw: nat -> nat, calls: nat, before: seq<string>)
    requires i <= |content|
    ensures |Pieces(before + Drawn(content, i, draw, calls))| <= |Pieces(before)| + 6 * (|content| - i)
    decreases |content| - i
  {
    hide Pieces, Drawn, Piece;
    if i == |content| {
      DrawnEnd(content, draw, calls);
      assert before + [] == before;
    } else {
      var n := ChunkSize(content, i, draw(calls));
      var chunk := content[i..i + n];
      AppendPiece("", before, chunk);
      DrawnStep(content, i, draw, calls, before);
      DrawnLength(content, i + n, draw, calls + 1, before + [chunk]);
      PieceLength(chunk);
    }
  }

  /** Up to 36 bytes the response fits whatever is drawn. */
  lemma ShortContentFits(content: string, draw: nat -> nat)
    requires |content| <= 36
    ensures |HEAD| + |Encode(Drawn(content, 0, draw, 0))| <= Capacity(content)
  {
    DrawnLength(content, 0, draw, 0, []);
    NoPieces();
    assert [] + Drawn(content, 0, draw, 0) == Drawn(content, 0, draw, 0);
    assert |HEAD| == 73;
  }

  // ----- the round trip

  lemma {:induction false} RunDigits(x: string, ds: string, i: nat)
    requires 0 < i <= |ds| <= MAX_DIGITS
    requires forall k :: 0 <= k < |ds| ==> IsHex(ds[k])
    ensures Run(Reader(Size(ds[..i]), x), ds, i) == Reader(Size(ds), x)
    ensures !Extends(Reader(Size(ds[..i]), x), ds, i)
    decreases |ds| - i
  {
    if i < |ds| {
      assert ds[..i] + [ds[i]] == ds[..i + 1];
      RunDigits(x, ds, i + 1);
    } else {
      assert ds[..i] == ds;
    }
  }

  /** A size line, up to its line end. */
  lemma RunSize(x: string, n: nat)
    requires n < SIZE_LIMIT
    ensures Run(Reader(SizeStart, x), Hex(n), 0) == Reader(Size(Hex(n)), x)
    ensures !Extends(Reader(SizeStart, x), Hex(n), 0)
  {
    HexRoundTrip(n);
    assert Pow16(8) == 16 * Pow16(7) == 256 * Pow16(6) == 4096 * Pow16(5) == 65536 * Pow16(4);
    assert Pow16(4) == 16 * Pow16(3) == 256 * Pow16(2) == 4096 * Pow16(1) == 65536;
    HexLength(n, 8);
    assert Hex(n)[..1] == [Hex(n)[0]];
    RunDigits(x, Hex(n), 1);
  }

  lemma RunCrLf(r: Reader)
    ensures Run(r, "\r\n", 0) == Next(Next(r, '\r'), '\n')
    ensures !r.phase.Extension? && !Next(Next(r, '\r'), '\n').phase.Extension? ==> !Extends(r, "\r\n", 0)
  {
    assert Run(r, "\r\n", 0) == Run(Next(r, '\r'), "\r\n", 1) == Run(Next(Next(r, '\r'), '\n'), "\r\n", 2);
  }

  lemma {:induction false} RunData(x: string, data: string, i: nat)
    requires i < |data|
    ensures Run(Reader(Data(|data| - i), x + data[..i]), data, i) == Reader(DataCr, x + data)
    ensures !Extends(Reader(Data(|data| - i), x + data[..i]), data, i)
    decreases |data| - i
  {
    assert x + data[..i] + [data[i]] == x + data[..i + 1];
    if i + 1 < |data| {
      RunData(x, data, i + 1);
    } else {
      assert data[..i + 1] == data;
    }
  }

  lemma Joins(r: Reader, s: string, t: string)
    ensures Run(r, s + t, 0) == Run(Run(r, s, 0), t, 0)
    ensures Extends(r, s + t, 0) == (Extends(r, s, 0) || Extends(Run(r, s, 0), t, 0))
  {
    RunConcat(r, s, t, 0);
    ExtendsConcat(r, s, t, 0);
  }

  lemma RunPiece(x: string, chunk: string)
    requires 0 < |chunk| < SIZE_LIMIT
    ensures Run(Reader(SizeStart, x), Piece(chunk), 0) == Reader(SizeStart, x + chunk)
    ensures !Extends(Reader(SizeStart, x), Piece(chunk), 0)
  {
    var n := |chunk|;
    var start := Reader(SizeStart, x);
    hide Run, Extends, Hex, HexValue;
    Joins(start, Hex(n) + "\r\n" + chunk, "\r\n");
    Joins(start, Hex(n) + "\r\n", chunk);
    Joins(start, Hex(n), "\r\n");
    RunSize(x, n);
    RunCrLf(Reader(Size(Hex(n)), x));
    HexRoundTrip(n);
    assert x + chunk[..0] == x;
    RunData(x, chunk, 0);
    RunCrLf(Reader(DataCr, x + chunk));
  }

  lemma {:induction false} RunPieces(chunks: seq<string>)
    requires ValidChunks(chunks)
    ensures Run(START, Pieces(chunks), 0) == Reader(SizeStart, Flatten(chunks))
    ensures !Extends(START, Pieces(chunks), 0)
  {
    if chunks != [] {
      var before, last := chunks[..|chunks| - 1], chunks[|chunks| - 1];
      assert chunks == before + [last];
      FlattenAppend(before, last);
      RunPieces(before);
      Joins(START, Pieces(before), Piece(last));
      RunPiece(Flatten(before), last);
    }
  }

  /** Reading an encoded body, whatever follows it, gives back the chunks' contents, and comes to
      no extension. */
  lemma EncodeRoundTrip(chunks: seq<string>, extra: string)
    requires ValidChunks(chunks)
    ensures Run(START, Encode(chunks) + extra, 0) == Reader(Finished, Flatten(chunks))
    ensures !Extends(START, Encode(chunks) + extra, 0)
  {
    hide Run, Extends, Pieces, Flatten;
    var x := Flatten(chunks);
    RunPieces(chunks);
    Joins(START, Pieces(chunks), "0\r\n\r\n" + extra);
    assert Encode(chunks) + extra == Pieces(chunks) + ("0\r\n\r\n" + extra);
    LastChunk(x, extra);
  }

  lemma LastChunk(x: string, extra: string)
    ensures Run(Reader(SizeStart, x), "0\r\n\r\n" + extra, 0) == Reader(Finished, x)
    ensures !Extends(Reader(SizeStart, x), "0\r\n\r\n" + extra, 0)
  {
    hide Run, Extends;
    var r := Reader(SizeStart, x);
    assert "0\r\n\r\n" + extra == ("0" + "\r\n") + ("\r\n" + extra);
    Joins(r, "0" + "\r\n", "\r\n" + extra);
    Joins(r, "0", "\r\n");
    assert Hex(0) == "0";
    RunSize(x, 0);
    RunCrLf(Reader(Size("0"), x));
    HexRoundTrip(0);
    RunStays(Reader(Finished, x), "\r\n" + extra, 0);
    NoExtensionAfter(Reader(Finished, x), "\r\n" + extra, 0);
  }

  lemma {:induction false} NoExtensionAfter(r: Reader, s: string, i: nat)
    requires i <= |s| && r.phase.Finished?
    ensures !Extends(r, s, i)
    decreases |s| - i
  {
    if i < |s| {
      NoExtensionAfter(r, s, i + 1);
    }
  }
}
