/**
  The length codes of codelength.h: seven bits per byte, most significant group first,
  with the top bit of a byte saying that another one follows.
 */
module CodeLength {

  type Byte = x: int | 0 <= x < 256

  const WORD: int := 0x1_0000_0000
  const GUARD: int := 0x200_0000          // decoding goes on only below 2^25

  /** A byte of a buffer; what lies past its end is taken as zero. */
  function ByteAt(b: seq<Byte>, i: nat): Byte {
    if i < |b| then b[i] else 0
  }

  ghost predicate Holds(b: seq<Byte>, p: nat, s: seq<Byte>) {
    p + |s| <= |b| && b[p..p + |s|] == s
  }

  lemma HoldsSplit(b: seq<Byte>, p: nat, s: seq<Byte>, t: seq<Byte>)
    requires Holds(b, p, s + t)
    ensures Holds(b, p, s) && Holds(b, p + |s|, t)
  {
    var u := b[p..p + |s + t|];
    assert b[p..p + |s|] == u[..|s|] && b[p + |s|..p + |s| + |t|] == u[|s|..];
  }

  // ---- The code of a length ----

  /** The groups of `m` without leading zeros, each marked as followed by another. */
  ghost function Heads(m: nat): (s: seq<Byte>)
    ensures m > 0 ==> |s| > 0
  {
    if m == 0 then [] else Heads(m / 128) + [128 + m % 128]
  }

  ghost function Code(n: nat): seq<Byte> {
    Heads(n / 128) + [n % 128]
  }

  /** CODELENGTH on a 32-bit length: five tests, most significant group first. */
  method WriteCode(n: nat) returns (code: seq<Byte>)
    requires n < WORD
    ensures code == Code(n)
  {
    code := [];
    if n >= 268435456 {
      code := code + [n / 268435456 % 128 + 128];
    }
    if n >= 2097152 {
      code := code + [n / 2097152 % 128 + 128];
    }
    if n >= 16384 {
      code := code + [n / 16384 % 128 + 128];
    }
    if n >= 128 {
      code := code + [n / 128 % 128 + 128];
    }
    code := code + [n % 128];
    WrittenCode(n);
  }

  lemma WrittenCode(n: nat)
    requires n < WORD
    ensures Code(n) == Group(n, 268435456) + Group(n, 2097152) + Group(n, 16384) + Group(n, 128) + [n % 128]
  {
    var m := n / 128;
    assert m / 128 == n / 16384 && m / 128 / 128 == n / 2097152 && m / 128 / 128 / 128 == n / 268435456;
    assert Heads(m / 128 / 128 / 128) == Group(n, 268435456);
    assert Heads(m / 128 / 128) == Group(n, 268435456) + Group(n, 2097152);
    assert Heads(m / 128) == Group(n, 268435456) + Group(n, 2097152) + Group(n, 16384);
  }

  ghost function Group(n: nat, unit: nat): seq<Byte>
    requires unit > 0
  {
    if n >= unit then [n / unit % 128 + 128] else []
  }

  // ---- Reading it back ----

  datatype Read = Read(value: nat, next: nat)

  /** What decoding from `p` gives, with `acc` read so far and no bound on the value. */
  function Decode(b: seq<Byte>, p: nat, acc: nat): Read
    decreases |b| - p
  {
    var x := ByteAt(b, p);
    var n := acc * 128 + x % 128;
    if x >= 128 && n < GUARD then Decode(b, p + 1, n) else Read(n, p + 1)
  }

  lemma DecodeStep(b: seq<Byte>, p: nat, acc: nat)
    ensures var n := acc * 128 + ByteAt(b, p) % 128;
      Decode(b, p, acc) == if ByteAt(b, p) >= 128 && n < GUARD then Decode(b, p + 1, n) else Read(n, p + 1)
  {
  }

  /** DECODELENGTH with its 32-bit accumulator: the shift never drops a bit. */
  method ReadCode(b: seq<Byte>, start: nat) returns (n: nat, p: nat)
    ensures n < WORD && p > start
    ensures Read(n, p) == Decode(b, start, 0)
  {
    hide Decode;
    DecodeStep(b, start, 0);
    p := start;
    n := ByteAt(b, p) % 128;
    p := p + 1;
    while ByteAt(b, p - 1) >= 128 && n < GUARD
      invariant p > start && n < WORD
      invariant Decode(b, start, 0) == if ByteAt(b, p - 1) >= 128 && n < GUARD then Decode(b, p, n) else Read(n, p)
      decreases |b| - p
    {
      ShiftFits(n);
      DecodeStep(b, p, n);
      n := n * 128 % WORD + ByteAt(b, p) % 128;
      p := p + 1;
    }
  }

  /** Below the guard a shift loses no bit and leaves room for a group. */
  lemma ShiftFits(n: nat)
    requires n < GUARD
    ensures n * 128 % WORD == n * 128 <= WORD - 128
  {
  }

  /** Reading that stops at a limit, as DECODELENGTH_CHECKLIMIT does. */
  function DecodeBelow(b: seq<Byte>, p: nat, limit: nat, acc: nat): Read
    decreases limit - p
  {
    if p >= limit then Read(acc, p) else
    var x := ByteAt(b, p);
    var n := acc * 128 + x % 128;
    if x >= 128 && n < GUARD then DecodeBelow(b, p + 1, limit, n) else Read(n, p + 1)
  }

  method ReadCodeBelow(b: seq<Byte>, start: nat, limit: nat) returns (n: nat, p: nat)
    ensures n < WORD && start <= p && (start <= limit ==> p <= limit)
    ensures Read(n, p) == DecodeBelow(b, start, limit, 0)
  {
    p, n := start, 0;
    var more := true;
    while more
      invariant p >= start && n < WORD && (start <= limit ==> p <= limit)
      invariant more ==> n < GUARD
      invariant DecodeBelow(b, start, limit, 0) == if more then DecodeBelow(b, p, limit, n) else Read(n, p)
      decreases more, limit - p
    {
      if p >= limit {
        break;
      }
      n := n * 128 % WORD + ByteAt(b, p) % 128;
      more := ByteAt(b, p) >= 128 && n < GUARD;
      p := p + 1;
    }
  }

  // ---- Round trips ----

  lemma {:induction false} HeadsRead(b: seq<Byte>, p: nat, m: nat)
    requires m < GUARD && Holds(b, p, Heads(m))
    ensures Decode(b, p, 0) == Decode(b, p + |Heads(m)|, m)
    decreases m
  {
    hide Decode, Holds;
    if m > 0 {
      var hs := Heads(m / 128);
      HoldsSplit(b, p, hs, [128 + m % 128]);
      HeadsRead(b, p, m / 128);
      HeadRead(b, p + |hs|, m);
    }
  }

  /** One group that is followed by another. */
  lemma HeadRead(b: seq<Byte>, p: nat, m: nat)
    requires 0 < m < GUARD && Holds(b, p, [128 + m % 128])
    ensures Decode(b, p, m / 128) == Decode(b, p + 1, m)
  {
    assert b[p..p + 1][0] == 128 + m % 128;
    assert (128 + m % 128) % 128 == m % 128;
  }

  /** The code of a 32-bit length is read back whole, whatever comes after it. */
  lemma CodeRead(b: seq<Byte>, p: nat, n: nat)
    requires n < WORD && Holds(b, p, Code(n))
    ensures Decode(b, p, 0) == Read(n, p + |Code(n)|)
  {
    var hs := Heads(n / 128);
    HoldsSplit(b, p, hs, [n % 128]);
    HeadsRead(b, p, n / 128);
    assert b[p + |hs|..p + |hs| + 1][0] == n % 128;
  }

  /** A code that ends by the limit is read the same way with it. */
  lemma {:induction false} BelowAgrees(b: seq<Byte>, p: nat, limit: nat, acc: nat)
    requires Decode(b, p, acc).next <= limit
    ensures DecodeBelow(b, p, limit, acc) == Decode(b, p, acc)
    decreases |b| - p
  {
    DecodeMoves(b, p, acc);
    var x := ByteAt(b, p);
    var n := acc * 128 + x % 128;
    if x >= 128 && n < GUARD {
      BelowAgrees(b, p + 1, limit, n);
    }
  }

  lemma {:induction false} DecodeMoves(b: seq<Byte>, p: nat, acc: nat)
    ensures Decode(b, p, acc).next > p
    decreases |b| - p
  {
    var x := ByteAt(b, p);
    var n := acc * 128 + x % 128;
    if x >= 128 && n < GUARD {
      DecodeMoves(b, p + 1, n);
    }
  }

  /** The code of a length read with a limit: whole when it ends by the limit. */
  lemma CodeReadBelow(b: seq<Byte>, p: nat, limit: nat, n: nat)
    requires n < WORD && Holds(b, p, Code(n)) && p + |Code(n)| <= limit
    ensures DecodeBelow(b, p, limit, 0) == Read(n, p + |Code(n)|)
  {
    CodeRead(b, p, n);
    BelowAgrees(b, p, limit, 0);
  }
}
