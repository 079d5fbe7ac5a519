// UTF-8 text on the wire: RFC 3629, sections 3 and 4.
module Utf8 {
  import opened Prelude

  function EncodeChar(c: char): (r: Bytes)
    ensures 1 <= |r| <= 4
  {
    var n := c as int;
    var a := n / 0x40;
    var b := a / 0x40;
    if n < 0x80 then [n]
    else if n < 0x800 then [0xC0 + a, 0x80 + n % 0x40]
    else if n < 0x1_0000 then [0xE0 + b, 0x80 + a % 0x40, 0x80 + n % 0x40]
    else [0xF0 + b / 0x40, 0x80 + b % 0x40, 0x80 + a % 0x40, 0x80 + n % 0x40]
  }

  function Encode(s: string): Bytes {
    if s == [] then [] else EncodeChar(s[0]) + Encode(s[1..])
  }

  predicate Continuation(b: Byte) { 0x80 <= b < 0xC0 }

  predicate IsScalar(n: int) { 0 <= n < 0xD800 || 0xE000 <= n < 0x11_0000 }

  // The code point whose lead byte is `first` over `lead` and whose
  // continuation bytes are `tail`.
  function Assemble(first: int, lead: int, tail: Bytes): int {
    if tail == [] then first - lead
    else Assemble(first, lead, tail[..|tail| - 1]) * 0x40 + (Last(tail) as int - 0x80)
  }

  // The first character of `b` and how many bytes it took. Overlong forms,
  // surrogates and values above U+10FFFF are refused.
  function DecodeChar(b: Bytes): (r: Option<(char, nat)>)
    ensures r.Some? ==> 1 <= r.value.1 <= |b|
  {
    if b == [] then None
    else if b[0] < 0x80 then Some((b[0] as char, 1))
    else if 0xC0 <= b[0] < 0xE0 && |b| >= 2 && Continuation(b[1]) then
      Scalar(Assemble(b[0], 0xC0, b[1..2]), 0x80, 2)
    else if 0xE0 <= b[0] < 0xF0 && |b| >= 3 && Continuation(b[1]) && Continuation(b[2]) then
      Scalar(Assemble(b[0], 0xE0, b[1..3]), 0x800, 3)
    else if 0xF0 <= b[0] < 0xF8 && |b| >= 4 && Continuation(b[1]) && Continuation(b[2]) && Continuation(b[3]) then
      Scalar(Assemble(b[0], 0xF0, b[1..4]), 0x1_0000, 4)
    else None
  }

  function Scalar(n: int, least: int, width: nat): (r: Option<(char, nat)>)
    ensures r.Some? ==> r.value.1 == width
  {
    if least <= n && IsScalar(n) then Some((n as char, width)) else None
  }

  function Decode(b: Bytes): Option<string> {
    if b == [] then Some([])
    else match DecodeChar(b) {
      case None => None
      case Some((c, n)) =>
        match Decode(b[n..]) {
          case None => None
          case Some(s) => Some([c] + s)
        }
    }
  }

  lemma Assemble1(first: int, lead: int, x: Byte)
    ensures Assemble(first, lead, [x]) == (first - lead) * 0x40 + (x as int - 0x80)
  {
    assert [x][..0] == [];
  }

  lemma Assemble2(first: int, lead: int, x: Byte, y: Byte)
    ensures Assemble(first, lead, [x, y]) == ((first - lead) * 0x40 + (x as int - 0x80)) * 0x40 + (y as int - 0x80)
  {
    assert [x, y][..1] == [x];
    Assemble1(first, lead, x);
  }

  lemma Assemble3(first: int, lead: int, x: Byte, y: Byte, z: Byte)
    ensures Assemble(first, lead, [x, y, z])
         == (((first - lead) * 0x40 + (x as int - 0x80)) * 0x40 + (y as int - 0x80)) * 0x40 + (z as int - 0x80)
  {
    assert [x, y, z][..2] == [x, y];
    Assemble2(first, lead, x, y);
  }

  lemma DecodeTwo(c: char, p: nat, q: nat, rest: Bytes)
    requires c as int == p * 0x40 + q && 0x80 <= c as int < 0x800 && q < 0x40
    ensures DecodeChar([0xC0 + p, 0x80 + q] + rest) == Some((c, 2))
  {
    var b: Bytes := [0xC0 + p, 0x80 + q] + rest;
    assert b[1..2] == [0x80 + q];
    Assemble1(0xC0 + p, 0xC0, 0x80 + q);
  }

  lemma DecodeThree(c: char, p: nat, q: nat, r: nat, rest: Bytes)
    requires c as int == (p * 0x40 + q) * 0x40 + r && 0x800 <= c as int < 0x1_0000 && q < 0x40 && r < 0x40
    ensures DecodeChar([0xE0 + p, 0x80 + q, 0x80 + r] + rest) == Some((c, 3))
  {
    var b: Bytes := [0xE0 + p, 0x80 + q, 0x80 + r] + rest;
    assert b[1..3] == [0x80 + q, 0x80 + r];
    Assemble2(0xE0 + p, 0xE0, 0x80 + q, 0x80 + r);
  }

  lemma DecodeFour(c: char, p: nat, q: nat, r: nat, t: nat, rest: Bytes)
    requires c as int == ((p * 0x40 + q) * 0x40 + r) * 0x40 + t && 0x1_0000 <= c as int
    requires q < 0x40 && r < 0x40 && t < 0x40
    ensures DecodeChar([0xF0 + p, 0x80 + q, 0x80 + r, 0x80 + t] + rest) == Some((c, 4))
  {
    var b: Bytes := [0xF0 + p, 0x80 + q, 0x80 + r, 0x80 + t] + rest;
    assert b[1..4] == [0x80 + q, 0x80 + r, 0x80 + t];
    Assemble3(0xF0 + p, 0xF0, 0x80 + q, 0x80 + r, 0x80 + t);
  }

  lemma DecodeEncodedChar(c: char, rest: Bytes)
    ensures DecodeChar(EncodeChar(c) + rest) == Some((c, |EncodeChar(c)|))
  {
    var n := c as int;
    var a := n / 0x40;
    var b := a / 0x40;
    if n < 0x80 {
    } else if n < 0x800 {
      DecodeTwo(c, a, n % 0x40, rest);
    } else if n < 0x1_0000 {
      DecodeThree(c, b, a % 0x40, n % 0x40, rest);
    } else {
      DecodeFour(c, b / 0x40, b % 0x40, a % 0x40, n % 0x40, rest);
    }
  }

  lemma DecodeFirst(c: char, rest: Bytes, s: string)
    requires Decode(rest) == Some(s)
    ensures Decode(EncodeChar(c) + rest) == Some([c] + s)
  {
    DecodeEncodedChar(c, rest);
    assert (EncodeChar(c) + rest)[|EncodeChar(c)|..] == rest;
  }

  lemma {:induction false} DecodeEncoded(s: string)
    ensures Decode(Encode(s)) == Some(s)
  {
    if s != [] {
      DecodeEncoded(s[1..]);
      DecodeFirst(s[0], Encode(s[1..]), s[1..]);
      assert s == [s[0]] + s[1..];
    }
  }

  // One, two, three and four bytes.
  lemma Examples()
    ensures Encode("A") == [0x41]
    ensures EncodeChar(0xE9 as char) == [0xC3, 0xA9] && EncodeChar(0x20AC as char) == [0xE2, 0x82, 0xAC]
    ensures EncodeChar(0x1F600 as char) == [0xF0, 0x9F, 0x98, 0x80]
  {
    assert "A"[1..] == "";
  }

  lemma DecodedCharLength(b: Bytes)
    requires DecodeChar(b).Some?
    ensures |EncodeChar(DecodeChar(b).value.0)| <= DecodeChar(b).value.1
  {
    var width := DecodeChar(b).value.1;
    if width == 2 {
      assert b[1..2] == [b[1]];
      Assemble1(b[0], 0xC0, b[1]);
    } else if width == 3 {
      assert b[1..3] == [b[1], b[2]];
      Assemble2(b[0], 0xE0, b[1], b[2]);
    }
  }

  // Nothing decodes to text that would take more bytes.
  lemma {:induction false} DecodedLength(b: Bytes)
    requires Decode(b).Some?
    ensures |Encode(Decode(b).value)| <= |b|
  {
    if b != [] {
      var (c, n) := DecodeChar(b).value;
      DecodedCharLength(b);
      DecodedLength(b[n..]);
      var tail := Decode(b[n..]).value;
      assert ([c] + tail)[1..] == tail;
    }
  }
}
