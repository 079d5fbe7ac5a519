// The postcard wire format, as far as the control plane uses it: varint
// integers, booleans, options, strings, fixed byte arrays. The rules are those
// of the Postcard wire format specification, "Varint Encoded Integers",
// "bool", "string", "option" and "Tagged Unions".
module Postcard {
  import opened Prelude
  import Utf8

  // A decoding step: a value and the bytes after it.
  datatype Parsed<+T> = Fail | Got(value: T, rest: Bytes) {
    predicate IsFailure() { Fail? }

    function PropagateFailure<U>(): Parsed<U>
      requires Fail?
    {
      Parsed<U>.Fail
    }

    function Extract(): (T, Bytes)
      requires Got?
    {
      (value, rest)
    }
  }

  function EncodeVarint(n: nat): (r: Bytes)
    ensures r != []
    decreases n
  {
    if n < 0x80 then [n] else [0x80 + n % 0x80] + EncodeVarint(n / 0x80)
  }

  // One past the largest number a varint of `width` bytes may carry when its
  // last byte is at most `lastMax`.
  function VarintLimit(width: nat, lastMax: nat): nat {
    if width == 0 then 0 else if width == 1 then lastMax + 1 else 0x80 * VarintLimit(width - 1, lastMax)
  }

  // Little-endian groups of seven bits; the high bit says that more follow.
  // Padded forms are accepted, overlong and overflowing ones are not.
  function TakeVarint(b: Bytes, width: nat, lastMax: Byte): (r: Parsed<nat>)
    ensures r.Got? ==> |r.rest| < |b| && (lastMax < 0x80 ==> r.value < VarintLimit(width, lastMax))
    decreases width
  {
    if width == 0 || b == [] then Fail
    else if b[0] < 0x80 then
      if width == 1 && b[0] > lastMax then Fail
      else
        LimitAtLeast(width, lastMax);
        Got(b[0], b[1..])
    else
      var (high, rest) :- TakeVarint(b[1..], width - 1, lastMax);
      Got(b[0] - 0x80 + 0x80 * high, rest)
  }

  lemma LimitAtLeast(width: nat, lastMax: nat)
    requires width > 0
    ensures VarintLimit(width, lastMax) >= lastMax + 1
    ensures width > 1 ==> VarintLimit(width, lastMax) >= 0x80
  {
  }

  lemma {:induction false} VarintRoundTrip(n: nat, width: nat, lastMax: Byte, rest: Bytes)
    requires lastMax < 0x80 && n < VarintLimit(width, lastMax)
    ensures TakeVarint(EncodeVarint(n) + rest, width, lastMax) == Got(n, rest)
    ensures |EncodeVarint(n)| <= width
  {
    if n < 0x80 {
      assert (EncodeVarint(n) + rest)[1..] == rest;
    } else {
      LimitShrinks(n, width, lastMax);
      VarintRoundTrip(n / 0x80, width - 1, lastMax, rest);
      TakeMore(0x80 + n % 0x80, EncodeVarint(n / 0x80) + rest, width, lastMax);
      Associate([0x80 + n % 0x80], EncodeVarint(n / 0x80), rest);
    }
  }

  lemma LimitShrinks(n: nat, width: nat, lastMax: nat)
    requires lastMax < 0x80 <= n < VarintLimit(width, lastMax)
    ensures width > 1 && n / 0x80 < VarintLimit(width - 1, lastMax)
  {
  }

  // A byte with the high bit set, and whatever follows it.
  lemma TakeMore(first: Byte, tail: Bytes, width: nat, lastMax: Byte)
    requires first >= 0x80 && width > 0
    ensures var high := TakeVarint(tail, width - 1, lastMax);
            TakeVarint([first] + tail, width, lastMax)
            == if high.Fail? then Fail else Got(first - 0x80 + 0x80 * high.value, high.rest)
  {
    assert ([first] + tail)[1..] == tail;
  }

  function TakeU16(b: Bytes): (r: Parsed<U16>)
    ensures r.Got? ==> |r.rest| < |b|
  {
    assert VarintLimit(2, 3) == 0x80 * VarintLimit(1, 3);
    assert VarintLimit(3, 3) == 0x1_0000;
    var (v, rest) :- TakeVarint(b, 3, 3);
    Got(v, rest)
  }

  function TakeU32(b: Bytes): (r: Parsed<U32>)
    ensures r.Got? ==> |r.rest| < |b|
  {
    LimitU32();
    var (v, rest) :- TakeVarint(b, 5, 15);
    Got(v, rest)
  }

  function TakeU64(b: Bytes): (r: Parsed<U64>)
    ensures r.Got? ==> |r.rest| < |b|
  {
    LimitU64();
    var (v, rest) :- TakeVarint(b, 10, 1);
    Got(v, rest)
  }

  lemma LimitU32()
    ensures VarintLimit(5, 15) == 0x1_0000_0000
  {
    assert VarintLimit(2, 15) == 0x80 * VarintLimit(1, 15);
    assert VarintLimit(3, 15) == 0x80 * VarintLimit(2, 15);
    assert VarintLimit(4, 15) == 0x80 * VarintLimit(3, 15);
  }

  lemma LimitU64()
    ensures VarintLimit(10, 1) == 0x1_0000_0000_0000_0000
  {
    assert VarintLimit(2, 1) == 0x80 * VarintLimit(1, 1);
    assert VarintLimit(3, 1) == 0x80 * VarintLimit(2, 1);
    assert VarintLimit(4, 1) == 0x80 * VarintLimit(3, 1);
    assert VarintLimit(5, 1) == 0x80 * VarintLimit(4, 1);
    assert VarintLimit(6, 1) == 0x80 * VarintLimit(5, 1);
    assert VarintLimit(7, 1) == 0x80 * VarintLimit(6, 1);
    assert VarintLimit(8, 1) == 0x80 * VarintLimit(7, 1);
    assert VarintLimit(9, 1) == 0x80 * VarintLimit(8, 1);
  }

  lemma U16RoundTrip(n: U16, rest: Bytes)
    ensures TakeU16(EncodeVarint(n) + rest) == Got(n, rest) && |EncodeVarint(n)| <= 3
  {
    assert VarintLimit(2, 3) == 0x80 * VarintLimit(1, 3);
    assert VarintLimit(3, 3) == 0x1_0000;
    VarintRoundTrip(n, 3, 3, rest);
  }

  lemma U32RoundTrip(n: U32, rest: Bytes)
    ensures TakeU32(EncodeVarint(n) + rest) == Got(n, rest) && |EncodeVarint(n)| <= 5
  {
    LimitU32();
    VarintRoundTrip(n, 5, 15, rest);
  }

  lemma U64RoundTrip(n: U64, rest: Bytes)
    ensures TakeU64(EncodeVarint(n) + rest) == Got(n, rest) && |EncodeVarint(n)| <= 10
  {
    LimitU64();
    VarintRoundTrip(n, 10, 1, rest);
  }

  function EncodeBool(v: bool): Bytes { if v then [1] else [0] }

  function TakeBool(b: Bytes): (r: Parsed<bool>)
    ensures r.Got? ==> |r.rest| < |b|
  {
    if b != [] && b[0] <= 1 then Got(b[0] == 1, b[1..]) else Fail
  }

  lemma BoolRoundTrip(v: bool, rest: Bytes)
    ensures TakeBool(EncodeBool(v) + rest) == Got(v, rest)
  {
    assert (EncodeBool(v) + rest)[1..] == rest;
  }

  // `len` raw bytes.
  function TakeRaw(b: Bytes, len: nat): (r: Parsed<Bytes>)
    ensures r.Got? ==> |r.value| == len && |r.rest| == |b| - len
  {
    if len <= |b| then Got(b[..len], b[len..]) else Fail
  }

  lemma RawRoundTrip(raw: Bytes, rest: Bytes)
    ensures TakeRaw(raw + rest, |raw|) == Got(raw, rest)
  {
    assert (raw + rest)[..|raw|] == raw && (raw + rest)[|raw|..] == rest;
  }

  // A length-prefixed byte string.
  function EncodeBlob(b: Bytes): Bytes { EncodeVarint(|b|) + b }

  function TakeBlob(b: Bytes): (r: Parsed<Bytes>)
    ensures r.Got? ==> |r.rest| < |b|
  {
    var (len, rest) :- TakeU64(b);
    TakeRaw(rest, len)
  }

  lemma BlobRoundTrip(b: Bytes, rest: Bytes)
    requires |b| <= U64_MAX
    ensures TakeBlob(EncodeBlob(b) + rest) == Got(b, rest)
  {
    assert EncodeBlob(b) + rest == EncodeVarint(|b|) + (b + rest);
    U64RoundTrip(|b|, b + rest);
    RawRoundTrip(b, rest);
  }

  function EncodeString(s: string): Bytes { EncodeBlob(Utf8.Encode(s)) }

  function TakeString(b: Bytes): (r: Parsed<string>)
    ensures r.Got? ==> |r.rest| < |b|
  {
    var (raw, rest) :- TakeBlob(b);
    match Utf8.Decode(raw)
    case None => Fail
    case Some(s) => Got(s, rest)
  }

  lemma StringRoundTrip(s: string, rest: Bytes)
    requires |Utf8.Encode(s)| <= U64_MAX
    ensures TakeString(EncodeString(s) + rest) == Got(s, rest)
  {
    BlobRoundTrip(Utf8.Encode(s), rest);
    Utf8.DecodeEncoded(s);
  }

  function EncodeOption<T>(encode: T -> Bytes, v: Option<T>): Bytes {
    match v
    case None => [0]
    case Some(x) => [1] + encode(x)
  }

  function EncodeOptionString(s: Option<string>): Bytes { EncodeOption(EncodeString, s) }

  function EncodeOptionU64(v: Option<U64>): Bytes {
    match v
    case None => [0]
    case Some(n) => [1] + EncodeVarint(n)
  }

  function TakeOptionU64(b: Bytes): (r: Parsed<Option<U64>>)
    ensures r.Got? ==> |r.rest| < |b|
  {
    var (present, rest) :- TakeBool(b);
    if present then
      var (n, rest') :- TakeU64(rest);
      Got(Some(n), rest')
    else Got(None, rest)
  }

  lemma OptionU64RoundTrip(v: Option<U64>, rest: Bytes)
    ensures TakeOptionU64(EncodeOptionU64(v) + rest) == Got(v, rest)
  {
    match v
    case None =>
      assert EncodeOptionU64(v) + rest == EncodeBool(false) + rest;
      BoolRoundTrip(false, rest);
    case Some(n) =>
      assert EncodeOptionU64(v) + rest == EncodeBool(true) + (EncodeVarint(n) + rest);
      BoolRoundTrip(true, EncodeVarint(n) + rest);
      U64RoundTrip(n, rest);
  }

  const X25519_PUBLIC_LEN := 32

  // A public key: variant 0 of a one-variant union, then the raw key.
  type PubKey = k: Bytes | |k| == X25519_PUBLIC_LEN witness seq(X25519_PUBLIC_LEN, _ => 0)

  function EncodeKey(k: PubKey): Bytes { [0] + k }

  function TakeKey(b: Bytes): (r: Parsed<PubKey>)
    ensures r.Got? ==> |r.rest| + X25519_PUBLIC_LEN < |b|
  {
    var (tag, rest) :- TakeU32(b);
    if tag == 0 then TakeRaw(rest, X25519_PUBLIC_LEN) else Fail
  }

  lemma KeyRoundTrip(k: PubKey, rest: Bytes)
    ensures TakeKey(EncodeKey(k) + rest) == Got(k, rest)
  {
    assert EncodeVarint(0) == [0];
    assert EncodeKey(k) + rest == EncodeVarint(0) + (k + rest);
    U32RoundTrip(0, k + rest);
    RawRoundTrip(k, rest);
  }

  // ---- Sequences: a count, then the elements ----

  function EncodeList<T>(encode: T -> Bytes, xs: seq<T>): Bytes {
    if xs == [] then [] else encode(xs[0]) + EncodeList(encode, xs[1..])
  }

  function TakeList<T>(take: Bytes -> Parsed<T>, b: Bytes, count: nat): Parsed<seq<T>>
    decreases count
  {
    if count == 0 then Got([], b)
    else
      var (x, b1) :- take(b);
      var (xs, b2) :- TakeList(take, b1, count - 1);
      Got([x] + xs, b2)
  }

  lemma {:induction false} ListRoundTrip<T>(encode: T -> Bytes, take: Bytes -> Parsed<T>, xs: seq<T>, rest: Bytes)
    requires forall x, tail :: x in xs ==> take(encode(x) + tail) == Got(x, tail)
    ensures TakeList(take, EncodeList(encode, xs) + rest, |xs|) == Got(xs, rest)
  {
    if xs == [] {
      assert EncodeList(encode, xs) + rest == rest;
    } else {
      var tail := EncodeList(encode, xs[1..]) + rest;
      assert EncodeList(encode, xs) + rest == encode(xs[0]) + tail;
      ListRoundTrip(encode, take, xs[1..], rest);
      assert xs == [xs[0]] + xs[1..];
    }
  }

  lemma {:induction false} ListAtLeast<T>(encode: T -> Bytes, xs: seq<T>, least: nat)
    requires forall i :: 0 <= i < |xs| ==> least <= |encode(xs[i])|
    ensures least * |xs| <= |EncodeList(encode, xs)|
  {
    if xs != [] {
      ListAtLeast(encode, xs[1..], least);
      assert least * |xs| == least + least * |xs[1..]|;
    }
  }

  lemma {:induction false} ListAtMost<T>(encode: T -> Bytes, xs: seq<T>, most: nat)
    requires forall i :: 0 <= i < |xs| ==> |encode(xs[i])| <= most
    ensures |EncodeList(encode, xs)| <= most * |xs|
  {
    if xs != [] {
      ListAtMost(encode, xs[1..], most);
      assert most * |xs| == most + most * |xs[1..]|;
    }
  }

  lemma {:induction false} ListSplit<T>(encode: T -> Bytes, xs: seq<T>, m: nat)
    requires m <= |xs|
    ensures |EncodeList(encode, xs)| == |EncodeList(encode, xs[..m])| + |EncodeList(encode, xs[m..])|
  {
    if m > 0 {
      ListSplit(encode, xs[1..], m - 1);
      assert xs[..m][1..] == xs[1..][..m - 1] && xs[m..] == xs[1..][m - 1..];
    }
  }

  lemma {:induction false} ElementSize<T>(encode: T -> Bytes, xs: seq<T>, i: nat)
    requires i < |xs|
    ensures |encode(xs[i])| <= |EncodeList(encode, xs)|
  {
    if i > 0 { ElementSize(encode, xs[1..], i - 1); }
  }

  // ---- No decoder takes fewer bytes than the value's own encoding ----

  lemma {:induction false} VarintUses(b: Bytes, width: nat, lastMax: Byte)
    requires TakeVarint(b, width, lastMax).Got?
    ensures |EncodeVarint(TakeVarint(b, width, lastMax).value)| + |TakeVarint(b, width, lastMax).rest| <= |b|
    decreases width
  {
    if b[0] >= 0x80 {
      VarintUses(b[1..], width - 1, lastMax);
      var high := TakeVarint(b[1..], width - 1, lastMax).value;
      var n := b[0] - 0x80 + 0x80 * high;
      assert n / 0x80 == high;
    }
  }

  lemma StringUses(b: Bytes)
    requires TakeString(b).Got?
    ensures |EncodeString(TakeString(b).value)| + |TakeString(b).rest| <= |b|
  {
    var len := TakeU64(b).value;
    VarintUses(b, 10, 1);
    Utf8.DecodedLength(TakeBlob(b).value);
    VarintGrows(|Utf8.Encode(TakeString(b).value)|, len);
  }

  lemma {:induction false} VarintGrows(m: nat, n: nat)
    requires m <= n
    ensures |EncodeVarint(m)| <= |EncodeVarint(n)|
  {
    if m >= 0x80 { VarintGrows(m / 0x80, n / 0x80); }
  }

  lemma OptionU64Uses(b: Bytes)
    requires TakeOptionU64(b).Got?
    ensures |EncodeOptionU64(TakeOptionU64(b).value)| + |TakeOptionU64(b).rest| <= |b|
  {
    if TakeBool(b).value { VarintUses(TakeBool(b).rest, 10, 1); }
  }

  lemma {:induction false} ListUses<T>(encode: T -> Bytes, take: Bytes -> Parsed<T>, b: Bytes, count: nat)
    requires forall c: Bytes :: take(c).Got? ==> |encode(take(c).value)| + |take(c).rest| <= |c|
    requires TakeList(take, b, count).Got?
    ensures |EncodeList(encode, TakeList(take, b, count).value)| + |TakeList(take, b, count).rest| <= |b|
    decreases count
  {
    if count > 0 {
      var x, b1 := take(b).value, take(b).rest;
      ListUses(encode, take, b1, count - 1);
      var xs := TakeList(take, b1, count - 1).value;
      assert ([x] + xs)[1..] == xs;
    }
  }
}
