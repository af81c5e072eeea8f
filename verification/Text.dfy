/**
  Text at a position of a buffer.
 */
module Text {

  /** `t` stands at index `i` of `s`. */
  ghost predicate Reads(s: string, i: nat, t: string) {
    i + |t| <= |s| && s[i..i + |t|] == t
  }

  lemma ReadsAt(s: string, i: nat, t: string)
    requires Reads(s, i, t)
    ensures forall k :: 0 <= k < |t| ==> s[i + k] == t[k]
    ensures forall k :: i <= k < i + |t| ==> s[k] == t[k - i]
  {
    forall k | 0 <= k < |t| ensures s[i + k] == t[k] {
      assert s[i..i + |t|][k] == t[k];
    }
  }

  lemma ReadsSplit(s: string, i: nat, a: string, b: string)
    requires Reads(s, i, a + b)
    ensures Reads(s, i, a) && Reads(s, i + |a|, b)
  {
    var t := s[i..i + |a + b|];
    assert s[i..i + |a|] == t[..|a|] == a;
    assert s[i + |a|..i + |a| + |b|] == t[|a|..] == b;
  }

  lemma ReadsWhole(s: string)
    ensures Reads(s, 0, s)
  {
    assert s[0..|s|] == s;
  }

  /** The byte at `i`; what lies past the end is taken as NUL. */
  function At(s: string, i: nat): char {
    if i < |s| then s[i] else '\0'
  }

  /** The C string at the start of a character array. */
  function CStr(s: string): (r: string)
    ensures |r| <= |s| && ('\0' !in s ==> r == s)
  {
    if s == "" || s[0] == '\0' then "" else [s[0]] + CStr(s[1..])
  }

  /** The first `n` characters. */
  function Cut(s: string, n: nat): string {
    if |s| > n then s[..n] else s
  }

  /** A number in decimal, as printf writes it. */
  function Dec(n: nat): (s: string)
    ensures s != ""
  {
    if n < 10 then [(n + '0' as int) as char] else Dec(n / 10) + [(n % 10 + '0' as int) as char]
  }

  lemma {:induction false} DecDigits(n: nat)
    ensures forall k :: 0 <= k < |Dec(n)| ==> '0' <= Dec(n)[k] <= '9'
  {
    if n >= 10 {
      DecDigits(n / 10);
    }
  }
}
