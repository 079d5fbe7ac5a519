// Small text operations shared by the fingerprint lookup and the hop labels.
module Text {
  import opened Prelude

  // The position of the first `c`.
  function Find(s: string, c: char): (r: Option<nat>)
    ensures r.Some? ==> r.value < |s| && s[r.value] == c && c !in s[..r.value]
    ensures r.None? ==> c !in s
  {
    if s == [] then None
    else if s[0] == c then Some(0)
    else
      match Find(s[1..], c)
      case None => None
      case Some(i) =>
        assert s[..i + 1] == [s[0]] + s[1..][..i];
        Some(i + 1)
  }

  lemma {:induction false} FindIs(s: string, c: char, i: nat)
    requires i < |s| && s[i] == c && c !in s[..i]
    ensures Find(s, c) == Some(i)
    decreases i
  {
    if i > 0 {
      assert s[..i] == [s[0]] + s[1..][..i - 1];
      FindIs(s[1..], c, i - 1);
    }
  }

  // What precedes and what follows the first `c`.
  function SplitOnce(s: string, c: char): Option<(string, string)> {
    match Find(s, c)
    case None => None
    case Some(i) => Some((s[..i], s[i + 1..]))
  }

  function HexDigit(n: int): (c: char)
    requires 0 <= n < 16
    ensures '0' <= c <= '9' || 'a' <= c <= 'f'
  {
    if n < 10 then ('0' as int + n) as char else ('a' as int + (n - 10)) as char
  }

  lemma HexDigitInjective(m: int, n: int)
    requires 0 <= m < 16 && 0 <= n < 16 && HexDigit(m) == HexDigit(n)
    ensures m == n
  {
  }

  predicate IsLowerHex(c: char) { '0' <= c <= '9' || 'a' <= c <= 'f' }

  // Two lower-case digits per byte.
  function Hex(b: Bytes): (s: string)
    ensures |s| == 2 * |b| && forall i :: 0 <= i < |s| ==> IsLowerHex(s[i])
  {
    if b == [] then "" else [HexDigit(b[0] / 16), HexDigit(b[0] % 16)] + Hex(b[1..])
  }

  lemma {:induction false} HexInjective(a: Bytes, b: Bytes)
    requires |a| == |b| && Hex(a) == Hex(b)
    ensures a == b
  {
    if a != [] {
      assert Hex(a)[0] == Hex(b)[0] && Hex(a)[1] == Hex(b)[1];
      HexDigitInjective(a[0] / 16, b[0] / 16);
      HexDigitInjective(a[0] % 16, b[0] % 16);
      assert Hex(a)[2..] == Hex(a[1..]) && Hex(b)[2..] == Hex(b[1..]);
      HexInjective(a[1..], b[1..]);
    }
  }

  lemma {:induction false} HexPrefix(b: Bytes, n: nat)
    requires n <= |b|
    ensures Hex(b)[..2 * n] == Hex(b[..n])
  {
    if n > 0 {
      HexPrefix(b[1..], n - 1);
      assert b[..n][1..] == b[1..][..n - 1];
      assert Hex(b)[..2 * n] == [HexDigit(b[0] / 16), HexDigit(b[0] % 16)] + Hex(b[1..])[..2 * (n - 1)];
    }
  }

  // Unicode White_Space.
  predicate IsWhitespace(c: char) {
    var n := c as int;
    9 <= n <= 13 || n == 0x20 || n == 0x85 || n == 0xA0 || n == 0x1680 || 0x2000 <= n <= 0x200A
    || n == 0x2028 || n == 0x2029 || n == 0x202F || n == 0x205F || n == 0x3000
  }

  function TrimStart(s: string): string { if s != [] && IsWhitespace(s[0]) then TrimStart(s[1..]) else s }

  function TrimEnd(s: string): string { if s != [] && IsWhitespace(Last(s)) then TrimEnd(s[..|s| - 1]) else s }

  function Trim(s: string): string { TrimEnd(TrimStart(s)) }

  function LowerChar(c: char): char { if 'A' <= c <= 'Z' then (c as int + 32) as char else c }

  function Lower(s: string): string { seq(|s|, i requires 0 <= i < |s| => LowerChar(s[i])) }
}
