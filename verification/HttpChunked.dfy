/**
  Chunked transfer coding: the incremental decoder inside `getHTTPResponse` and the
  coding itself (section 4.1 of RFC 7230).
 */
module HttpChunked {
  import opened Text

  const SIZE_LIMIT := 0x8000_0000        // sizes from here on are negative as a C int
  const WORD := 0x1_0000_0000
  const MAX_DIGITS := 31                 // sizeof (chunksize_buf) - 1

  predicate IsHex(c: char) {
    '0' <= c <= '9' || 'a' <= c <= 'f' || 'A' <= c <= 'F'
  }

  function HexDigit(c: char): nat {
    if '0' <= c <= '9' then c as int - '0' as int
    else if 'a' <= c <= 'f' then c as int - 'a' as int + 10
    else if 'A' <= c <= 'F' then c as int - 'A' as int + 10
    else 0
  }

  /** The number a digit string stands for. */
  function HexValue(s: string): nat {
    if s == "" then 0 else 16 * HexValue(s[..|s| - 1]) + HexDigit(s[|s| - 1])
  }

  /** Hex digits in upper case. */
  function UpperHex(s: string): (u: string)
    ensures |u| == |s|
  {
    if s == "" then ""
    else
      var c := s[|s| - 1];
      UpperHex(s[..|s| - 1]) + [if 'a' <= c <= 'f' then c - 'a' + 'A' else c]
  }

  /** The case of the digits does not matter. */
  lemma {:induction false} UpperHexValue(s: string)
    ensures HexValue(UpperHex(s)) == HexValue(s)
    ensures (forall k :: 0 <= k < |s| ==> IsHex(s[k])) <==> (forall k :: 0 <= k < |s| ==> IsHex(UpperHex(s)[k]))
    decreases s
  {
    if s != "" {
      UpperHexValue(s[..|s| - 1]);
      assert UpperHex(s)[..|s| - 1] == UpperHex(s[..|s| - 1]);
      assert forall k :: 0 <= k < |s| - 1 ==> s[..|s| - 1][k] == s[k];
      assert IsHex(s[|s| - 1]) <==> IsHex(UpperHex(s)[|s| - 1]);
    }
  }

  // ----- the decoder

  /** The variables that live across receives: `size` bytes are left in the current chunk,
      `digits` is the part of a chunk size read so far. */
  datatype Decoder = Decoder(size: nat, digits: string, content: string)

  /** `Overrun`: the copy would read past the receive buffer, which is undefined in C. */
  datatype Outcome = More(d: Decoder) | Done(content: string) | Overrun

  function SkipIf(buf: string, i: nat, c: char): (j: nat)
    requires i <= |buf|
    ensures i <= j <= |buf| && j <= i + 1
  {
    if i < |buf| && buf[i] == c then i + 1 else i
  }

  /** The end of the hex digits from `i` on, of which at most `room` are taken. */
  function HexEnd(buf: string, i: nat, room: nat): (j: nat)
    requires i <= |buf|
    ensures i <= j <= |buf| && j <= i + room
    decreases |buf| - i
  {
    if i < |buf| && IsHex(buf[i]) && room > 0 then HexEnd(buf, i + 1, room - 1) else i
  }

  function ExtensionEnd(buf: string, i: nat): (j: nat)
    requires i <= |buf|
    ensures i <= j <= |buf| && (j < |buf| ==> buf[j] == '\r' || buf[j] == '\n')
    decreases |buf| - i
  {
    if i < |buf| && buf[i] != '\r' && buf[i] != '\n' then ExtensionEnd(buf, i + 1) else i
  }

  function Room(digits: string): nat {
    if |digits| < MAX_DIGITS then MAX_DIGITS - |digits| else 0
  }

  /** A turn of the loop between chunks: where the digits start and end, and where the line
      feed that ends the size line is, if it has come. */
  function SizeLine(digits: string, buf: string, i: nat): (r: (nat, nat, nat))
    requires i < |buf|
    ensures i <= r.0 <= r.1 <= r.2 <= |buf|
    ensures r.2 == i ==> buf[i] == '\n'
  {
    var a := if digits == "" then SkipIf(buf, SkipIf(buf, i, '\r'), '\n') else i;
    var b := HexEnd(buf, a, Room(digits));
    (a, b, SkipIf(buf, ExtensionEnd(buf, b), '\r'))
  }

  /** What a turn of the chunk loop leads to. */
  datatype Turn = Continue(d: Decoder, i: nat) | Stop(o: Outcome)

  function CopyTurn(d: Decoder, buf: string, i: nat): (t: Turn)
    requires d.size > 0 && i <= |buf|
    ensures t.Continue? ==> i <= t.i <= |buf| && (i < |buf| ==> i < t.i)
  {
    if d.size >= SIZE_LIMIT then Stop(Overrun)
    else
      var n := if d.size < |buf| - i then d.size else |buf| - i;
      Continue(Decoder(d.size - n, d.digits, d.content + buf[i..i + n]), i + n)
  }

  function EndSizeTurn(digits: string, content: string, buf: string, i: nat): (t: Turn)
    requires i <= |buf|
    ensures t.Continue? ==> i <= t.i <= |buf|
  {
    var size := HexValue(digits) % WORD;
    if size == 0 then Stop(Done(content)) else CopyTurn(Decoder(size, "", content), buf, i)
  }

  /** A turn reads a size line, as far as it goes, or copies data, or both. */
  function OneTurn(d: Decoder, buf: string, i: nat): (t: Turn)
    requires i < |buf|
    ensures t.Continue? ==> i < t.i <= |buf|
  {
    if d.size == 0 then
      var (a, b, j) := SizeLine(d.digits, buf, i);
      var digits := d.digits + buf[a..b];
      if j < |buf| && buf[j] == '\n' then EndSizeTurn(digits, d.content, buf, j + 1)
      else Continue(d.(digits := digits), j)
    else CopyTurn(d, buf, i)
  }

  /** One receive, from index `i`. */
  function Feed(d: Decoder, buf: string, i: nat): Outcome
    requires i <= |buf|
    decreases |buf| - i
  {
    if i == |buf| then More(d)
    else
      match OneTurn(d, buf, i)
      case Continue(d', j) => Feed(d', buf, j)
      case Stop(o) => o
  }

  lemma ModStep(x: nat, digit: nat)
    ensures (16 * (x % WORD) + digit) % WORD == (16 * x + digit) % WORD
  {
    var q, r := x / WORD, x % WORD;
    assert 16 * x + digit == (16 * r + digit) + WORD * (16 * q);
    assert ((16 * r + digit) + WORD * (16 * q)) % WORD == (16 * r + digit) % WORD;
  }

  /** The size is accumulated in 32 bits. */
  method ParseSize(digits: string) returns (size: nat)
    ensures size == HexValue(digits) % WORD
  {
    size := 0;
    for j := 0 to |digits|
      invariant size == HexValue(digits[..j]) % WORD
    {
      ModStep(HexValue(digits[..j]), HexDigit(digits[j]));
      assert digits[..j + 1][..j] == digits[..j];
      size := (16 * size + HexDigit(digits[j])) % WORD;
    }
    assert digits[..|digits|] == digits;
  }

  method ReadDigits(buf: string, start: nat, before: string) returns (digits: string, i: nat)
    requires start <= |buf|
    ensures i == HexEnd(buf, start, Room(before)) && digits == before + buf[start..i]
  {
    i, digits := start, before;
    while i < |buf| && IsHex(buf[i]) && |digits| < MAX_DIGITS
      invariant start <= i <= |buf| && digits == before + buf[start..i]
      invariant HexEnd(buf, start, Room(before)) == HexEnd(buf, i, Room(digits))
    {
      digits := digits + [buf[i]];
      i := i + 1;
    }
  }

  method DiscardExtension(buf: string, start: nat) returns (i: nat)
    requires start <= |buf|
    ensures i == ExtensionEnd(buf, start)
  {
    i := start;
    while i < |buf| && buf[i] != '\r' && buf[i] != '\n'
      invariant start <= i <= |buf| && ExtensionEnd(buf, start) == ExtensionEnd(buf, i)
    {
      i := i + 1;
    }
  }

  /** The part of the chunk loop that reads a size line. */
  method ReadSizeLine(buf: string, start: nat, before: string) returns (digits: string, i: nat)
    requires start < |buf|
    ensures var line := SizeLine(before, buf, start);
            digits == before + buf[line.0..line.1] && i == line.2
  {
    i := start;
    if before == "" {
      if i < |buf| && buf[i] == '\r' { i := i + 1; }
      if i < |buf| && buf[i] == '\n' { i := i + 1; }
    }
    digits, i := ReadDigits(buf, i, before);
    i := DiscardExtension(buf, i);
    if i < |buf| && buf[i] == '\r' { i := i + 1; }
  }

  /** The body of the chunk loop. */
  method TakeTurn(d: Decoder, buf: string, start: nat) returns (t: Turn)
    requires start < |buf|
    ensures t == OneTurn(d, buf, start)
  {
    var i, size := start, d.size;
    var digits := d.digits;
    if size == 0 {
      digits, i := ReadSizeLine(buf, i, digits);
      if i < |buf| && buf[i] == '\n' {
        size := ParseSize(digits);
        digits := "";
        i := i + 1;
      } else {
        return Continue(d.(digits := digits), i);
      }
      if size == 0 {
        return Stop(Done(d.content));
      }
    }
    if size >= SIZE_LIMIT {
      return Stop(Overrun);
    }
    var bytesToCopy := if size < |buf| - i then size else |buf| - i;
    t := Continue(Decoder(size - bytesToCopy, digits, d.content + buf[i..i + bytesToCopy]), i + bytesToCopy);
  }

  /** The chunk loop over one receive. */
  method FeedReceive(d: Decoder, buf: string) returns (r: Outcome)
    ensures r == Feed(d, buf, 0)
  {
    var now, i := d, 0;
    while i < |buf|
      invariant i <= |buf| && Feed(d, buf, 0) == Feed(now, buf, i)
    {
      var t := TakeTurn(now, buf, i);
      match t
      case Stop(o) => return o;
      case Continue(d', j) => now, i := d', j;
    }
    r := More(now);
  }

  // ----- the coding

  /** Where a reader of a chunked body stands.  `Outside` is everything that is not a chunked
      body with sizes of at most 31 digits below 2^31. */
  datatype Phase =
    | SizeStart
    | Size(digits: string)
    | Extension(digits: string)
    | SizeLf(digits: string)
    | Data(left: nat)
    | DataCr
    | DataLf
    | Finished
    | Outside

  datatype Reader = Reader(phase: Phase, content: string)

  const START := Reader(SizeStart, "")

  /** One byte of a chunked body. */
  function Next(r: Reader, c: char): Reader {
    var phase' :=
      match r.phase
      case SizeStart => if IsHex(c) then Size([c]) else Outside
      case Size(ds) =>
        if IsHex(c) then (if |ds| < MAX_DIGITS then Size(ds + [c]) else Outside)
        else if c == '\r' then SizeLf(ds)
        else if c == ';' then Extension(ds)
        else Outside
      case Extension(ds) =>
        if c == '\r' then SizeLf(ds) else if c == '\n' then Outside else r.phase
      case SizeLf(ds) =>
        if c != '\n' || HexValue(ds) >= SIZE_LIMIT then Outside
        else if HexValue(ds) == 0 then Finished
        else Data(HexValue(ds))
      case Data(left) => if left > 1 then Data(left - 1) else DataCr
      case DataCr => if c == '\r' then DataLf else Outside
      case DataLf => if c == '\n' then SizeStart else Outside
      case Finished => Finished
      case Outside => Outside;
    Reader(phase', if r.phase.Data? then r.content + [c] else r.content)
  }

  /** Reading the bytes of `s` from index `i` on. */
  function Run(r: Reader, s: string, i: nat): Reader
    requires i <= |s|
    decreases |s| - i
  {
    if i == |s| then r else Run(Next(r, s[i]), s, i + 1)
  }

  lemma {:induction false} RunStays(r: Reader, s: string, i: nat)
    requires i <= |s| && (r.phase.Finished? || r.phase.Outside?)
    ensures Run(r, s, i) == r
    decreases |s| - i
  {
    if i < |s| {
      RunStays(r, s, i + 1);
    }
  }

  lemma {:induction false} RunConcat(r: Reader, s: string, t: string, i: nat)
    requires i <= |s|
    ensures Run(r, s + t, i) == Run(Run(r, s, i), t, 0)
    decreases |s| - i
  {
    if i < |s| {
      RunConcat(Next(r, s[i]), s, t, i + 1);
    } else {
      RunShift(r, s, t, 0);
    }
  }

  lemma {:induction false} RunShift(r: Reader, s: string, t: string, i: nat)
    requires i <= |t|
    ensures Run(r, s + t, |s| + i) == Run(r, t, i)
    decreases |t| - i
  {
    if i < |t| {
      RunShift(Next(r, t[i]), s, t, i + 1);
    }
  }

  // ----- the decoder follows the coding

  /** The decoder forgets all of the phase but the bytes left and the digits read. */
  function Forget(r: Reader): Decoder {
    match r.phase
    case Size(ds) => Decoder(0, ds, r.content)
    case Extension(ds) => Decoder(0, ds, r.content)
    case SizeLf(ds) => Decoder(0, ds, r.content)
    case Data(left) => Decoder(left, "", r.content)
    case _ => Decoder(0, "", r.content)
  }

  /** The readers that can be reached inside a body. */
  ghost predicate Live(r: Reader) {
    match r.phase
    case Size(ds) => 0 < |ds| <= MAX_DIGITS
    case Extension(ds) => 0 < |ds| <= MAX_DIGITS
    case SizeLf(ds) => 0 < |ds| <= MAX_DIGITS
    case Data(left) => 0 < left < SIZE_LIMIT
    case Finished => false
    case Outside => false
    case _ => true
  }

  lemma FeedDigit(d: Decoder, buf: string, i: nat)
    requires i < |buf| && d.size == 0 && IsHex(buf[i]) && |d.digits| < MAX_DIGITS
    ensures Feed(d, buf, i) == Feed(d.(digits := d.digits + [buf[i]]), buf, i + 1)
  {
    hide EndSizeTurn, CopyTurn, ExtensionEnd;
    var (a, b, j) := SizeLine(d.digits, buf, i);
    assert d.digits + buf[i..b] == d.digits + [buf[i]] + buf[i + 1..b];
    if i + 1 < |buf| {
      assert SizeLine(d.digits + [buf[i]], buf, i + 1) == (i + 1, b, j);
    }
  }

  lemma FeedData(d: Decoder, buf: string, i: nat)
    requires i < |buf| && 0 < d.size < SIZE_LIMIT
    ensures Feed(d, buf, i) == Feed(d.(size := d.size - 1, content := d.content + [buf[i]]), buf, i + 1)
  {
    hide SizeLine, EndSizeTurn, HexValue;
    var n := if d.size < |buf| - i then d.size else |buf| - i;
    var d' := d.(size := d.size - 1, content := d.content + [buf[i]]);
    var copied := Decoder(d.size - n, d.digits, d.content + buf[i..i + n]);
    assert OneTurn(d, buf, i) == Continue(copied, i + n);
    assert copied.content == d'.content + buf[i + 1..i + n];
    if n == 1 {
      assert copied == d';
    } else {
      assert OneTurn(d', buf, i + 1) == Continue(copied, i + n);
    }
  }

  lemma LeadSizeLine(buf: string, i: nat)
    requires i + 1 < |buf| && (buf[i] == '\r' || buf[i] == '\n')
    requires if buf[i] == '\r' then buf[i + 1] == '\n' else IsHex(buf[i + 1])
    ensures SizeLine("", buf, i) == SizeLine("", buf, i + 1)
  {
    var i2 := if buf[i] == '\r' then i + 2 else i + 1;
    assert SkipIf(buf, SkipIf(buf, i, '\r'), '\n') == i2;
    assert SkipIf(buf, SkipIf(buf, i + 1, '\r'), '\n') == i2;
  }

  /** The line end before a size line, in any number of receives. */
  lemma FeedLead(d: Decoder, buf: string, i: nat)
    requires i < |buf| && d.size == 0 && d.digits == ""
    requires buf[i] == '\r' || buf[i] == '\n'
    requires i + 1 < |buf| ==> if buf[i] == '\r' then buf[i + 1] == '\n' else IsHex(buf[i + 1])
    ensures Feed(d, buf, i) == Feed(d, buf, i + 1)
  {
    hide EndSizeTurn, CopyTurn;
    if i + 1 < |buf| {
      LeadSizeLine(buf, i);
      assert OneTurn(d, buf, i) == OneTurn(d, buf, i + 1);
    } else {
      assert SizeLine("", buf, i) == (|buf|, |buf|, |buf|);
      assert "" + buf[|buf|..|buf|] == "";
      assert OneTurn(d, buf, i) == Continue(d, |buf|);
    }
  }

  lemma FeedAfterDigits(d: Decoder, buf: string, i: nat)
    requires i < |buf| && d.size == 0 && d.digits != "" && !IsHex(buf[i]) && buf[i] != '\n'
    requires i + 1 < |buf| ==> !IsHex(buf[i + 1]) && (buf[i] == '\r' ==> buf[i + 1] == '\n')
    ensures Feed(d, buf, i) == Feed(d, buf, i + 1)
  {
    hide EndSizeTurn, CopyTurn;
    var (a, b, j) := SizeLine(d.digits, buf, i);
    assert d.digits + buf[i..i] == d.digits;
    if i + 1 < |buf| {
      assert SizeLine(d.digits, buf, i + 1) == (i + 1, i + 1, j);
      assert d.digits + buf[i + 1..i + 1] == d.digits;
    }
  }

  lemma FeedSizeEnd(d: Decoder, buf: string, i: nat)
    requires i < |buf| && d.size == 0 && d.digits != "" && buf[i] == '\n' && HexValue(d.digits) < SIZE_LIMIT
    ensures Feed(d, buf, i) ==
      if HexValue(d.digits) == 0 then Done(d.content)
      else Feed(Decoder(HexValue(d.digits), "", d.content), buf, i + 1)
  {
    var size := HexValue(d.digits);
    assert SizeLine(d.digits, buf, i) == (i, i, i);
    assert d.digits + buf[i..i] == d.digits;
    assert OneTurn(d, buf, i) == EndSizeTurn(d.digits, d.content, buf, i + 1);
    assert size % WORD == size;
    if size != 0 {
      var d' := Decoder(size, "", d.content);
      assert OneTurn(d, buf, i) == CopyTurn(d', buf, i + 1);
      if i + 1 == |buf| {
        assert d.content + buf[i + 1..i + 1] == d.content;
      } else {
        assert OneTurn(d', buf, i + 1) == CopyTurn(d', buf, i + 1);
      }
    }
  }

  /** The byte at `i` and the one after it keep the reader inside the coding. */
  ghost predicate StaysInside(r: Reader, buf: string, i: nat)
    requires i < |buf|
  {
    var r' := Next(r, buf[i]);
    Live(r) && !r'.phase.Outside? && (i + 1 < |buf| ==> !Next(r', buf[i + 1]).phase.Outside?)
  }

  /** The decoder does the same work whether the byte at `i` and the rest come in one receive
      or the rest comes in later ones. */
  ghost predicate SplitsAt(r: Reader, buf: string, i: nat)
    requires i < |buf|
  {
    var r' := Next(r, buf[i]);
    if r'.phase.Finished? then Feed(Forget(r), buf, i) == Done(r'.content)
    else Live(r') && Feed(Forget(r), buf, i) == Feed(Forget(r'), buf, i + 1)
  }

  /** A digit of the size, or the CR that ends the size line. */
  lemma FeedOneInSize(r: Reader, buf: string, i: nat)
    requires i < |buf| && StaysInside(r, buf, i)
    requires r.phase.Size? || r.phase.Extension?
    requires buf[i] == '\r' || (r.phase.Size? && IsHex(buf[i]))
    ensures SplitsAt(r, buf, i)
  {
    if IsHex(buf[i]) {
      FeedDigit(Forget(r), buf, i);
    } else {
      FeedAfterDigits(Forget(r), buf, i);
    }
  }

  lemma FeedOneSizeEnd(r: Reader, buf: string, i: nat)
    requires i < |buf| && StaysInside(r, buf, i) && r.phase.SizeLf?
    ensures SplitsAt(r, buf, i)
  {
    FeedSizeEnd(Forget(r), buf, i);
  }

  lemma FeedOneData(r: Reader, buf: string, i: nat)
    requires i < |buf| && StaysInside(r, buf, i) && r.phase.Data?
    ensures SplitsAt(r, buf, i)
  {
    FeedData(Forget(r), buf, i);
  }

  lemma FeedOneStart(r: Reader, buf: string, i: nat)
    requires i < |buf| && StaysInside(r, buf, i) && r.phase.SizeStart?
    ensures SplitsAt(r, buf, i)
  {
    FeedDigit(Forget(r), buf, i);
    assert "" + [buf[i]] == [buf[i]];
  }

  lemma FeedOneLead(r: Reader, buf: string, i: nat)
    requires i < |buf| && StaysInside(r, buf, i) && (r.phase.DataCr? || r.phase.DataLf?)
    ensures SplitsAt(r, buf, i)
  {
    FeedLead(Forget(r), buf, i);
  }

  lemma FeedOne(r: Reader, buf: string, i: nat)
    requires i < |buf| && StaysInside(r, buf, i) && !Extending(r, buf, i)
    ensures SplitsAt(r, buf, i)
  {
    if r.phase.Data? {
      FeedOneData(r, buf, i);
    } else if r.phase.SizeLf? {
      FeedOneSizeEnd(r, buf, i);
    } else if r.phase.Size? || r.phase.Extension? {
      FeedOneInSize(r, buf, i);
    } else if r.phase.SizeStart? {
      FeedOneStart(r, buf, i);
    } else {
      FeedOneLead(r, buf, i);
    }
  }

  /** The byte at `i` belongs to an extension. */
  predicate Extending(r: Reader, buf: string, i: nat)
    requires i < |buf|
  {
    buf[i] != '\r' && (r.phase.Extension? || (r.phase.Size? && !IsHex(buf[i])))
  }

  /** The decoder drops the rest of an extension in one step, unless that starts with a hex digit. */
  lemma FeedExtension(d: Decoder, buf: string, i: nat)
    requires i < |buf| && d.size == 0 && d.digits != "" && (!IsHex(buf[i]) || |d.digits| >= MAX_DIGITS)
    ensures Feed(d, buf, i) == Feed(d, buf, ExtensionEnd(buf, i))
  {
    hide EndSizeTurn, CopyTurn;
    var e := ExtensionEnd(buf, i);
    assert d.digits + buf[i..i] == d.digits;
    assert SizeLine(d.digits, buf, i) == (i, i, SkipIf(buf, e, '\r'));
    if e < |buf| {
      assert SizeLine(d.digits, buf, e) == (e, e, SkipIf(buf, e, '\r'));
      assert d.digits + buf[e..e] == d.digits;
    }
  }

  lemma {:induction false} RunExtension(ds: string, x: string, buf: string, i: nat)
    requires i <= |buf|
    ensures Run(Reader(Extension(ds), x), buf, i) == Run(Reader(Extension(ds), x), buf, ExtensionEnd(buf, i))
    decreases |buf| - i
  {
    if i < |buf| && buf[i] != '\r' && buf[i] != '\n' {
      RunExtension(ds, x, buf, i + 1);
    }
  }

  /** An extension: the reader comes to its end in the phase it is in from the first byte on. */
  lemma RunToExtensionEnd(r: Reader, buf: string, i: nat)
    requires i < |buf| && Live(r) && Extending(r, buf, i) && !Run(r, buf, i).phase.Outside?
    ensures buf[i] != '\n' && Forget(r).size == 0 && Forget(r).digits != ""
    ensures var r' := Reader(Extension(Forget(r).digits), r.content);
            Run(r, buf, i) == Run(r', buf, ExtensionEnd(buf, i)) && Live(r') && Forget(r') == Forget(r)
  {
    var r' := Next(r, buf[i]);
    if r'.phase.Outside? {
      RunStays(r', buf, i + 1);
    }
    RunExtension(Forget(r).digits, r.content, buf, i + 1);
  }

  ghost predicate Follows(o: Outcome, r: Reader) {
    if r.phase.Finished? then o == Done(r.content) else Live(r) && o == More(Forget(r))
  }

  /** A receive goes on with an extension at a hex digit, and there is room for a digit. */
  predicate Resumes(r: Reader, buf: string, i: nat) {
    r.phase.Extension? && |r.phase.digits| < MAX_DIGITS && i < |buf| && IsHex(buf[i])
  }

  /** One receive follows the coding. */
  lemma {:induction false} FeedFollows(r: Reader, buf: string, i: nat)
    requires i <= |buf| && Live(r) && !Run(r, buf, i).phase.Outside? && !Resumes(r, buf, i)
    ensures Follows(Feed(Forget(r), buf, i), Run(r, buf, i))
    decreases |buf| - i
  {
    hide Feed, Run, Next, Forget, ExtensionEnd, Live, Extending, Follows;
    FollowsHere(r, buf, i);
    if i < |buf| && Extending(r, buf, i) {
      RunToExtensionEnd(r, buf, i);
      FeedExtension(Forget(r), buf, i);
      FeedFollows(Reader(Extension(Forget(r).digits), r.content), buf, ExtensionEnd(buf, i));
    } else if i < |buf| {
      FeedByte(r, buf, i);
      var r' := Next(r, buf[i]);
      if r'.phase.Finished? {
        RunStays(r', buf, i + 1);
        FollowsDone(Feed(Forget(r), buf, i), r');
      } else {
        FeedFollows(r', buf, i + 1);
      }
    }
  }

  lemma FollowsHere(r: Reader, buf: string, i: nat)
    requires i <= |buf| && Live(r)
    ensures i == |buf| ==> Follows(Feed(Forget(r), buf, i), Run(r, buf, i))
    ensures i < |buf| ==> Run(r, buf, i) == Run(Next(r, buf[i]), buf, i + 1)
    ensures i < |buf| && Extending(r, buf, i) && !Resumes(r, buf, i) ==> !IsHex(buf[i]) || |Forget(r).digits| >= MAX_DIGITS
    ensures i < |buf| && Extending(r, buf, i) && buf[i] != '\n' ==> ExtensionEnd(buf, i) > i
    ensures var e := ExtensionEnd(buf, i); !Resumes(Reader(Extension(Forget(r).digits), r.content), buf, e)
  {
  }

  lemma FollowsDone(o: Outcome, r: Reader)
    requires r.phase.Finished? && o == Done(r.content)
    ensures Follows(o, r)
  {
  }

  /** One byte outside an extension. */
  lemma FeedByte(r: Reader, buf: string, i: nat)
    requires i < |buf| && Live(r) && !Run(r, buf, i).phase.Outside? && !Extending(r, buf, i)
    ensures SplitsAt(r, buf, i) && !Resumes(Next(r, buf[i]), buf, i + 1)
  {
    var r' := Next(r, buf[i]);
    if r'.phase.Outside? { RunStays(r', buf, i + 1); }
    if i + 1 < |buf| && Next(r', buf[i + 1]).phase.Outside? { RunStays(Next(r', buf[i + 1]), buf, i + 2); }
    FeedOne(r, buf, i);
  }

  // ----- several receives

  function Flatten(receives: seq<string>): string {
    if receives == [] then "" else receives[0] + Flatten(receives[1..])
  }

  /** The decoder over a list of receives, up to the last chunk. */
  function FeedAll(d: Decoder, receives: seq<string>): Outcome
    decreases |receives|
  {
    if receives == [] then More(d)
    else
      var o := Feed(d, receives[0], 0);
      if o.More? then FeedAll(o.d, receives[1..]) else o
  }

  /** No receive goes on with an extension at a hex digit. */
  ghost predicate SafeSplit(r: Reader, receives: seq<string>)
    decreases |receives|
  {
    receives == [] || (!Resumes(r, receives[0], 0) && SafeSplit(Run(r, receives[0], 0), receives[1..]))
  }

  /** However a chunked body, or a prefix of one, is split into receives, the decoder ends up
      where a byte-by-byte reader of the coding does, unless a receive goes on with an extension
      at a hex digit. */
  lemma {:induction false} FeedAllFollows(r: Reader, receives: seq<string>)
    requires Live(r) && !Run(r, Flatten(receives), 0).phase.Outside? && SafeSplit(r, receives)
    ensures Follows(FeedAll(Forget(r), receives), Run(r, Flatten(receives), 0))
    decreases |receives|
  {
    if receives != [] {
      var first, rest := receives[0], receives[1..];
      var r' := Run(r, first, 0);
      RunConcat(r, first, Flatten(rest), 0);
      if r'.phase.Outside? || r'.phase.Finished? { RunStays(r', Flatten(rest), 0); }
      FeedFollows(r, first, 0);
      if !r'.phase.Finished? {
        FeedAllFollows(r', rest);
      }
    }
  }

  // ----- bodies without extensions

  /** Whether reading `s` from index `i` on comes to an extension. */
  predicate Extends(r: Reader, s: string, i: nat)
    requires i <= |s|
    decreases |s| - i
  {
    r.phase.Extension? || (i < |s| && Extends(Next(r, s[i]), s, i + 1))
  }

  lemma {:induction false} ExtendsConcat(r: Reader, s: string, t: string, i: nat)
    requires i <= |s|
    ensures Extends(r, s + t, i) == (Extends(r, s, i) || Extends(Run(r, s, i), t, 0))
    decreases |s| - i
  {
    if i < |s| {
      ExtendsConcat(Next(r, s[i]), s, t, i + 1);
    } else {
      ExtendsShift(r, s, t, 0);
    }
  }

  lemma {:induction false} ExtendsShift(r: Reader, s: string, t: string, i: nat)
    requires i <= |t|
    ensures Extends(r, s + t, |s| + i) == Extends(r, t, i)
    decreases |t| - i
  {
    if i < |t| {
      ExtendsShift(Next(r, t[i]), s, t, i + 1);
    }
  }

  /** Without extensions every split is safe. */
  lemma {:induction false} SafeWithoutExtension(r: Reader, receives: seq<string>)
    requires !Extends(r, Flatten(receives), 0)
    ensures SafeSplit(r, receives)
    decreases |receives|
  {
    if receives != [] {
      ExtendsConcat(r, receives[0], Flatten(receives[1..]), 0);
      SafeWithoutExtension(Run(r, receives[0], 0), receives[1..]);
    }
  }

  // ----- extensions cut by receives

  /** The digits after a receive that comes while a size line is open: the run of hex digits it
      starts with is taken for more of the size. */
  function Resume(digits: string, buf: string): string {
    digits + buf[..HexEnd(buf, 0, Room(digits))]
  }

  function ResumeAll(digits: string, receives: seq<string>): string
    decreases |receives|
  {
    if receives == [] then digits else ResumeAll(Resume(digits, receives[0]), receives[1..])
  }

  predicate InLine(s: string) {
    '\r' !in s && '\n' !in s
  }

  lemma {:induction false} ExtensionEndAt(buf: string, i: nat, e: nat)
    requires i <= e <= |buf| && forall k :: i <= k < e ==> buf[k] != '\r' && buf[k] != '\n'
    requires e < |buf| ==> buf[e] == '\r' || buf[e] == '\n'
    ensures ExtensionEnd(buf, i) == e
    decreases e - i
  {
    if i < e {
      ExtensionEndAt(buf, i + 1, e);
    }
  }

  /** A receive inside an open size line. */
  lemma FeedInLine(digits: string, content: string, buf: string)
    requires digits != "" && InLine(buf)
    ensures Feed(Decoder(0, digits, content), buf, 0) == More(Decoder(0, Resume(digits, buf), content))
  {
    hide EndSizeTurn, CopyTurn;
    if buf != "" {
      var b := HexEnd(buf, 0, Room(digits));
      ExtensionEndAt(buf, b, |buf|);
      assert SizeLine(digits, buf, 0) == (0, b, |buf|);
      assert buf[0..b] == buf[..b];
    } else {
      assert digits + buf[..0] == digits;
    }
  }

  lemma {:induction false} HexEndBefore(a: string, rest: string, i: nat, room: nat)
    requires i <= |a| && rest != "" && !IsHex(rest[0])
    ensures HexEnd(a + rest, i, room) == HexEnd(a, i, room)
    decreases |a| - i
  {
    if i < |a| && room > 0 {
      HexEndBefore(a, rest, i + 1, room - 1);
    }
  }

  /** The receive with the end of the size line. */
  lemma FeedLineEnd(digits: string, content: string, last: string, more: string)
    requires InLine(last) && (digits == "" ==> last != "" && IsHex(last[0]))
    ensures var buf := last + "\r\n" + more;
            var size := HexValue(Resume(digits, last)) % WORD;
            Feed(Decoder(0, digits, content), buf, 0) ==
              if size == 0 then Done(content)
              else if size >= SIZE_LIMIT then Overrun
              else Feed(Decoder(size, "", content), buf, |last| + 2)
  {
    hide SizeLine, CopyTurn, HexValue, Resume;
    var buf := last + "\r\n" + more;
    LastSizeLine(digits, last, more);
    var d := Decoder(0, digits, content);
    assert OneTurn(d, buf, 0) == EndSizeTurn(Resume(digits, last), content, buf, |last| + 2);
    if 0 < HexValue(Resume(digits, last)) % WORD < SIZE_LIMIT {
      ResumeData(Resume(digits, last), content, buf, |last| + 2);
    } else {
      LargeSize(Resume(digits, last), content, buf, |last| + 2);
    }
  }

  lemma LastSizeLine(digits: string, last: string, more: string)
    requires InLine(last) && (digits == "" ==> last != "" && IsHex(last[0]))
    ensures var buf := last + "\r\n" + more;
            var (a, b, j) := SizeLine(digits, buf, 0);
            digits + buf[a..b] == Resume(digits, last) && j == |last| + 1 && buf[j] == '\n'
  {
    var buf, n := last + "\r\n" + more, |last|;
    var b := HexEnd(last, 0, Room(digits));
    assert buf == last + ("\r\n" + more);
    HexEndBefore(last, "\r\n" + more, 0, Room(digits));
    ExtensionEndAt(buf, b, n);
    assert SizeLine(digits, buf, 0) == (0, b, n + 1);
    assert buf[0..b] == last[..b];
  }

  lemma LargeSize(digits: string, content: string, buf: string, i: nat)
    requires i <= |buf| && (HexValue(digits) % WORD == 0 || HexValue(digits) % WORD >= SIZE_LIMIT)
    ensures EndSizeTurn(digits, content, buf, i) == Stop(if HexValue(digits) % WORD == 0 then Done(content) else Overrun)
  {
  }

  lemma ResumeData(digits: string, content: string, buf: string, i: nat)
    requires i <= |buf| && 0 < HexValue(digits) % WORD < SIZE_LIMIT
    ensures var t := EndSizeTurn(digits, content, buf, i);
            t.Continue? && Feed(t.d, buf, t.i) == Feed(Decoder(HexValue(digits) % WORD, "", content), buf, i)
  {
    var d := Decoder(HexValue(digits) % WORD, "", content);
    if i == |buf| {
      assert content + buf[i..i] == content;
    } else {
      assert OneTurn(d, buf, i) == CopyTurn(d, buf, i);
    }
  }

  /**
    A size line whose digits have come, and whose extension comes in any number of later receives:
    the size is the value of the digits and all the runs of hex digits the receives start with.
   */
  lemma {:induction false} SplitExtension(digits: string, content: string, receives: seq<string>, last: string, more: string)
    requires digits != "" && InLine(last) && forall k :: 0 <= k < |receives| ==> InLine(receives[k])
    ensures var buf := last + "\r\n" + more;
            var size := HexValue(ResumeAll(digits, receives + [last])) % WORD;
            FeedAll(Decoder(0, digits, content), receives + [buf]) ==
              if size == 0 then Done(content)
              else if size >= SIZE_LIMIT then Overrun
              else Feed(Decoder(size, "", content), buf, |last| + 2)
    decreases |receives|
  {
    hide Feed, Resume, HexValue;
    var buf := last + "\r\n" + more;
    if receives == [] {
      FeedLineEnd(digits, content, last, more);
      assert receives + [buf] == [buf] && receives + [last] == [last] && [buf][1..] == [] && [last][1..] == [];
      assert ResumeAll(digits, [last]) == Resume(digits, last);
      FeedAllOne(Decoder(0, digits, content), buf);
    } else {
      FeedInLine(digits, content, receives[0]);
      assert (receives + [buf])[1..] == receives[1..] + [buf] && (receives + [last])[1..] == receives[1..] + [last];
      ResumeLonger(digits, receives[0]);
      SplitExtension(Resume(digits, receives[0]), content, receives[1..], last, more);
    }
  }

  lemma FeedAllOne(d: Decoder, buf: string)
    ensures FeedAll(d, [buf]) == Feed(d, buf, 0)
  {
    hide Feed;
    assert [buf][1..] == [];
  }

  lemma ResumeLonger(digits: string, buf: string)
    ensures |digits| <= |Resume(digits, buf)|
  {
  }

  lemma {:induction false} HexValueGrows(a: string, b: string)
    ensures HexValue(a + b) >= HexValue(a)
    ensures b != "" && HexValue(a) > 0 ==> HexValue(a + b) > HexValue(a)
    decreases |b|
  {
    if b == "" {
      assert a + b == a;
    } else {
      assert (a + b)[..|a + b| - 1] == a + b[..|b| - 1];
      HexValueGrows(a, b[..|b| - 1]);
    }
  }

  lemma {:induction false} ResumeAllExtends(digits: string, receives: seq<string>)
    ensures digits <= ResumeAll(digits, receives)
    decreases |receives|
  {
    if receives != [] {
      ResumeAllExtends(Resume(digits, receives[0]), receives[1..]);
    }
  }

  /** A receive inside an extension keeps the decoder in step exactly when it does not resume. */
  lemma ResumeIff(r: Reader, buf: string)
    requires Live(r) && r.phase.Extension? && InLine(buf)
    ensures Follows(Feed(Forget(r), buf, 0), Run(r, buf, 0)) <==> !Resumes(r, buf, 0)
  {
    hide Feed;
    var ds := r.phase.digits;
    FeedInLine(ds, r.content, buf);
    RunExtension(ds, r.content, buf, 0);
    ExtensionEndAt(buf, 0, |buf|);
    NoDigitTaken(ds, [buf]);
    assert [buf][1..] == [] && ResumeAll(ds, [buf]) == Resume(ds, buf) && [buf][0] == buf;
  }

  lemma ModExact(x: nat, y: nat)
    ensures x % WORD == y <==> y < WORD && (x - y) % WORD == 0
  {
  }

  /** The size read is the size sent exactly when what the digits taken add is a multiple of 2^32;
      below 2^32, exactly when no digit was taken, or both are 0. */
  lemma SplitExtensionExact(digits: string, receives: seq<string>)
    ensures var all := ResumeAll(digits, receives);
      && (HexValue(all) % WORD == HexValue(digits)
          <==> HexValue(digits) < WORD && (HexValue(all) - HexValue(digits)) % WORD == 0)
      && (HexValue(all) < WORD ==>
          (HexValue(all) % WORD == HexValue(digits) <==> all == digits || HexValue(all) == 0))
  {
    hide ResumeAll, HexValue;
    var all := ResumeAll(digits, receives);
    ModExact(HexValue(all), HexValue(digits));
    ResumeAllExtends(digits, receives);
    assert all == digits + all[|digits|..];
    HexValueGrows(digits, all[|digits|..]);
  }

  /** No digit is taken exactly when no receive starts with a hex digit there is room for. */
  lemma {:induction false} NoDigitTaken(digits: string, receives: seq<string>)
    ensures ResumeAll(digits, receives) == digits
      <==> |digits| >= MAX_DIGITS || forall k :: 0 <= k < |receives| ==> receives[k] == "" || !IsHex(receives[k][0])
    decreases |receives|
  {
    if receives != [] {
      var first := Resume(digits, receives[0]);
      NoDigitTaken(first, receives[1..]);
      ResumeAllExtends(first, receives[1..]);
      if receives[0] == "" || !IsHex(receives[0][0]) || |digits| >= MAX_DIGITS {
        assert first == digits;
        assert forall k :: 1 <= k < |receives| ==> receives[k] == receives[1..][k - 1];
      } else {
        assert |first| > |digits|;
      }
    }
  }

  // ----- long and large sizes

  predicate AllHex(s: string) {
    forall k :: 0 <= k < |s| ==> IsHex(s[k])
  }

  lemma {:induction false} HexEndAt(buf: string, i: nat, e: nat, room: nat)
    requires i <= e <= |buf| && e - i <= room && forall k :: i <= k < e ==> IsHex(buf[k])
    requires e - i == room || e == |buf| || !IsHex(buf[e])
    ensures HexEnd(buf, i, room) == e
    decreases e - i
  {
    if i < e {
      HexEndAt(buf, i + 1, e, room - 1);
    }
  }

  /** Of the digits of a size line, in however many receives, the first 31 are kept. */
  lemma DigitsKept(before: string, now: string, ext: string)
    requires AllHex(now) && (ext == "" || !IsHex(ext[0]))
    ensures Resume(Cut(before, MAX_DIGITS), now + ext) == Cut(before + now, MAX_DIGITS)
  {
    var room := Room(Cut(before, MAX_DIGITS));
    var e := if |now| < room then |now| else room;
    HexEndAt(now + ext, 0, e, room);
    assert (now + ext)[..e] == now[..e];
  }

  /** A size line with any number of digits, some of which may have come before, and anything after
      them that does not start with a digit: the size is the value of the first 31 digits. */
  lemma SizeLineRead(before: string, now: string, ext: string, content: string, more: string)
    requires before + now != "" && AllHex(now) && InLine(ext) && (ext == "" || !IsHex(ext[0]))
    ensures var buf := now + ext + "\r\n" + more;
            var size := HexValue(Cut(before + now, MAX_DIGITS)) % WORD;
            Feed(Decoder(0, Cut(before, MAX_DIGITS), content), buf, 0) ==
              if size == 0 then Done(content)
              else if size >= SIZE_LIMIT then Overrun
              else Feed(Decoder(size, "", content), buf, |now + ext| + 2)
  {
    hide Feed, Resume, HexValue;
    DigitsKept(before, now, ext);
    FeedLineEnd(Cut(before, MAX_DIGITS), content, now + ext, more);
  }

  /** At the end of a size line the decoder has the size that was sent exactly when that is 0, or has
      at most 31 digits, leading zeros included, and is below 2^31. */
  lemma SizeLineExact(before: string, now: string, ext: string, content: string)
    requires before + now != "" && AllHex(now) && InLine(ext) && (ext == "" || !IsHex(ext[0]))
    ensures var size := HexValue(before + now);
            Feed(Decoder(0, Cut(before, MAX_DIGITS), content), now + ext + "\r\n", 0)
              == (if size == 0 then Done(content) else More(Decoder(size, "", content)))
            <==> size == 0 || (|before + now| <= MAX_DIGITS && size < SIZE_LIMIT)
  {
    hide Feed, HexValue, Cut;
    var buf := now + ext + "\r\n";
    assert buf + "" == buf && |buf| == |now + ext| + 2;
    SizeLineRead(before, now, ext, content, "");
    FeedNothing(Decoder(HexValue(Cut(before + now, MAX_DIGITS)) % WORD, "", content), buf);
    SizeKept(before + now);
  }

  lemma FeedNothing(d: Decoder, buf: string)
    ensures Feed(d, buf, |buf|) == More(d)
  {
  }

  lemma SizeKept(digits: string)
    ensures var size, kept := HexValue(digits), HexValue(Cut(digits, MAX_DIGITS)) % WORD;
      if size == 0 || (|digits| <= MAX_DIGITS && size < SIZE_LIMIT) then kept == size
      else kept == 0 || kept >= SIZE_LIMIT || kept < size
  {
    hide HexValue;
    var kept := Cut(digits, MAX_DIGITS);
    assert digits == kept + digits[|kept|..];
    HexValueGrows(kept, digits[|kept|..]);
  }

  lemma {:induction false} ZerosValue(s: string)
    requires forall k :: 0 <= k < |s| ==> s[k] == '0'
    ensures HexValue(s) == 0
  {
    if s != "" {
      ZerosValue(s[..|s| - 1]);
    }
  }

  /** After 31 zeros any size is taken for that of the last chunk. */
  lemma ZerosHideSize(zeros: string, digits: string, content: string)
    requires |zeros| == MAX_DIGITS && (forall k :: 0 <= k < |zeros| ==> zeros[k] == '0') && AllHex(digits)
    ensures Feed(Decoder(0, "", content), zeros + digits + "\r\n", 0) == Done(content)
  {
    hide HexValue, Feed;
    ZerosValue(zeros);
    SizeLineRead("", zeros + digits, "", content, "");
    assert zeros + digits + "" + "\r\n" + "" == zeros + digits + "\r\n" && "" + (zeros + digits) == zeros + digits;
    assert Cut(zeros + digits, MAX_DIGITS) == zeros;
  }
}
