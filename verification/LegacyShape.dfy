// Why the fallback for legacy predicate sets never misreads one whose names
// are valid: the current shape needs one flag more per predicate than the
// legacy bytes can supply.
module LegacyShape {
  import opened Prelude
  import opened Postcard
  import opened Rules
  import opened Predicates
  import Utf8

  // Which field of a legacy predicate a byte belongs to. `Present` is the
  // option byte of the idle timeout; every predicate has exactly one.
  datatype Mark = Length | Name | Port | Proto | Present | Idle

  // What two neighbouring bytes of a legacy list are like.
  ghost predicate Neighbours(m: Mark, b: Byte, m': Mark, b': Byte) {
    match m
    case Length => (m' == Length && b >= 0x80) || m' == Name
    case Name => b > 0x20 && (m' == Name || m' == Port)
    case Port => (m' == Port && b >= 0x80) || m' == Proto
    case Proto => m' == Present
    case Present => b <= 1 && (m' == Idle || m' == Length)
    case Idle => (m' == Idle && b >= 0x80 && b' != 0) || m' == Length
  }

  ghost predicate Marked(ms: seq<Mark>, bs: Bytes) {
    |ms| == |bs| && forall i :: 0 <= i < |ms| - 1 ==> Neighbours(ms[i], bs[i], ms[i + 1], bs[i + 1])
  }

  function Run(m: Mark, n: nat): seq<Mark> { seq(n, _ => m) }

  function IdleBytes(p: LegacyPredicate): Bytes {
    if p.idleTimeoutMs.Some? then EncodeVarint(p.idleTimeoutMs.value) else []
  }

  // The fields of a legacy predicate from its port on, and their marks.
  function TailBytes(p: LegacyPredicate): Bytes {
    EncodeVarint(p.listenPort) + ([ProtocolTag(p.protocol)] + EncodeOptionU64(p.idleTimeoutMs))
  }

  function TailMarks(p: LegacyPredicate): seq<Mark> {
    Run(Port, |EncodeVarint(p.listenPort)|) + [Proto, Present] + Run(Idle, |IdleBytes(p)|)
  }

  function MarksOf(p: LegacyPredicate): seq<Mark> {
    var name := Utf8.Encode(p.name);
    Run(Length, |EncodeVarint(|name|)|) + Run(Name, |name|) + TailMarks(p)
  }

  function AllMarks(ps: seq<LegacyPredicate>): seq<Mark> {
    if ps == [] then [] else MarksOf(ps[0]) + AllMarks(ps[1..])
  }

  // ---- Legacy bytes carry these marks ----

  lemma {:induction false} VarintBytes(n: nat)
    ensures var b := EncodeVarint(n);
            && Last(b) < 0x80 && (forall i :: 0 <= i < |b| - 1 ==> b[i] >= 0x80) && (|b| > 1 ==> Last(b) != 0)
  {
    if n >= 0x80 {
      VarintBytes(n / 0x80);
      if n / 0x80 < 0x80 { assert EncodeVarint(n / 0x80) == [n / 0x80]; }
    }
  }

  lemma {:induction false} NameBytes(name: string)
    requires forall i :: 0 <= i < |name| ==> !IsSpaceOrControl(name[i])
    ensures forall i :: 0 <= i < |Utf8.Encode(name)| ==> Utf8.Encode(name)[i] > 0x20
    ensures |Utf8.Encode(name)| >= |name|
  {
    if name != [] {
      NameBytes(name[1..]);
      assert !IsSpaceOrControl(name[0]);
    }
  }

  lemma VarintMarked(m: Mark, n: nat)
    requires m == Length || m == Port || m == Idle
    ensures Marked(Run(m, |EncodeVarint(n)|), EncodeVarint(n))
  {
    VarintBytes(n);
  }

  lemma Join(ms: seq<Mark>, bs: Bytes, ms': seq<Mark>, bs': Bytes)
    requires Marked(ms, bs) && Marked(ms', bs')
    requires ms != [] && ms' != [] ==> Neighbours(Last(ms), Last(bs), ms'[0], bs'[0])
    ensures Marked(ms + ms', bs + bs')
  {
  }

  lemma TailMarked(p: LegacyPredicate)
    ensures Marked(TailMarks(p), TailBytes(p))
    ensures TailMarks(p)[0] == Port
    ensures Last(TailMarks(p)) == Idle || (Last(TailMarks(p)) == Present && Last(TailBytes(p)) <= 1)
  {
    var port, idle := EncodeVarint(p.listenPort), IdleBytes(p);
    var flag: Byte := if p.idleTimeoutMs.Some? then 1 else 0;
    var tag := ProtocolTag(p.protocol);
    VarintMarked(Port, p.listenPort);
    if p.idleTimeoutMs.Some? { VarintMarked(Idle, p.idleTimeoutMs.value); }
    Join(Run(Port, |port|), port, [Proto, Present], [tag, flag]);
    Join(Run(Port, |port|) + [Proto, Present], port + [tag, flag], Run(Idle, |idle|), idle);
    assert TailBytes(p) == port + [tag, flag] + idle;
  }

  lemma PredicateMarked(p: LegacyPredicate)
    requires NameOk(p.name)
    ensures Marked(MarksOf(p), EncodeLegacyPredicate(p))
    ensures MarksOf(p)[0] == Length
    ensures Last(MarksOf(p)) == Idle || (Last(MarksOf(p)) == Present && Last(EncodeLegacyPredicate(p)) <= 1)
  {
    var name := Utf8.Encode(p.name);
    var len := EncodeVarint(|name|);
    assert forall i :: 0 <= i < |p.name| ==> !IsSpaceOrControl(p.name[i]);
    NameBytes(p.name);
    VarintMarked(Length, |name|);
    TailMarked(p);
    Join(Run(Length, |len|), len, Run(Name, |name|), name);
    Join(Run(Length, |len|) + Run(Name, |name|), len + name, TailMarks(p), TailBytes(p));
    assert EncodeLegacyPredicate(p) == len + name + TailBytes(p);
  }

  lemma {:induction false} ListMarked(ps: seq<LegacyPredicate>)
    requires forall i :: 0 <= i < |ps| ==> NameOk(ps[i].name)
    ensures Marked(AllMarks(ps), EncodeList(EncodeLegacyPredicate, ps))
    ensures ps != [] ==> AllMarks(ps) != [] && AllMarks(ps)[0] == Length
  {
    if ps != [] {
      PredicateMarked(ps[0]);
      ListMarked(ps[1..]);
      Join(MarksOf(ps[0]), EncodeLegacyPredicate(ps[0]), AllMarks(ps[1..]), EncodeList(EncodeLegacyPredicate, ps[1..]));
    }
  }

  // ---- Counting option bytes ----

  function Presents(ms: seq<Mark>): nat {
    if ms == [] then 0 else (if ms[0] == Present then 1 else 0) + Presents(ms[1..])
  }

  lemma {:induction false} PresentsAppend(ms: seq<Mark>, ms': seq<Mark>)
    ensures Presents(ms + ms') == Presents(ms) + Presents(ms')
  {
    if ms == [] {
      assert ms + ms' == ms';
    } else {
      assert (ms + ms')[1..] == ms[1..] + ms';
      PresentsAppend(ms[1..], ms');
    }
  }

  lemma {:induction false} NoPresents(m: Mark, n: nat)
    requires m != Present
    ensures Presents(Run(m, n)) == 0
  {
    if n > 0 {
      assert Run(m, n)[1..] == Run(m, n - 1);
      NoPresents(m, n - 1);
    }
  }

  lemma OnePresent(p: LegacyPredicate)
    ensures Presents(MarksOf(p)) == 1
  {
    var name := Utf8.Encode(p.name);
    var len, port, idle := EncodeVarint(|name|), EncodeVarint(p.listenPort), IdleBytes(p);
    NoPresents(Length, |len|);
    NoPresents(Name, |name|);
    NoPresents(Port, |port|);
    NoPresents(Idle, |idle|);
    assert [Proto, Present][1..] == [Present] && [Present][1..] == [];
    PresentsAppend(Run(Port, |port|), [Proto, Present]);
    PresentsAppend(Run(Port, |port|) + [Proto, Present], Run(Idle, |idle|));
    PresentsAppend(Run(Length, |len|), Run(Name, |name|));
    PresentsAppend(Run(Length, |len|) + Run(Name, |name|), TailMarks(p));
  }

  lemma {:induction false} PresentsPerPredicate(ps: seq<LegacyPredicate>)
    ensures Presents(AllMarks(ps)) == |ps|
  {
    if ps != [] {
      OnePresent(ps[0]);
      PresentsPerPredicate(ps[1..]);
      PresentsAppend(MarksOf(ps[0]), AllMarks(ps[1..]));
    }
  }

  // Passing a `Present` uses it up.
  lemma PresentUsed(ms: seq<Mark>, from: nat, i: nat, to: nat)
    requires from <= i < to <= |ms| && ms[i] == Present
    ensures Presents(ms[from..]) >= 1 + Presents(ms[to..])
  {
    assert ms[from..] == ms[from..i] + ([ms[i]] + (ms[i + 1..to] + ms[to..]));
    PresentsAppend(ms[from..i], [ms[i]] + (ms[i + 1..to] + ms[to..]));
    PresentsAppend([ms[i]], ms[i + 1..to] + ms[to..]);
    PresentsAppend(ms[i + 1..to], ms[to..]);
    assert [ms[i]][1..] == [];
  }

  // ---- What reading the current shape takes ----

  // A varint's bytes: continuations, then a last byte that is zero only in a
  // lone or padded form.
  lemma {:induction false} VarintShape(b: Bytes, width: nat, lastMax: Byte) returns (n: nat)
    requires TakeVarint(b, width, lastMax).Got?
    ensures 1 <= n <= |b| && TakeVarint(b, width, lastMax).rest == b[n..] && b[n - 1] < 0x80
    ensures TakeVarint(b, width, lastMax).value < 0x80
            ==> (if n == 1 then b[0] == TakeVarint(b, width, lastMax).value else b[n - 1] == 0 && b[n - 2] >= 0x80)
    decreases width
  {
    if b[0] < 0x80 {
      n := 1;
    } else {
      var m := VarintShape(b[1..], width - 1, lastMax);
      n := m + 1;
      assert b[1..][m..] == b[n..] && b[1..][m - 1] == b[n - 1];
      if m > 1 { assert b[1..][m - 2] == b[n - 2]; }
    }
  }

  // A place where the current shape reads a protocol and an option byte has an
  // option byte of the legacy shape at most two bytes away. `y` is the last
  // byte of the protocol, `start` its first, after a port that began at `from`.
  lemma PresentNear(ms: seq<Mark>, s: Bytes, from: nat, start: nat, y: nat)
    requires |ms| <= |s| && Marked(ms, s[..|ms|])
    requires from < start <= y && y + 2 < |ms|
    requires s[start - 1] < 0x80 && s[y] <= 2 && s[y + 1] <= 1
    requires y > start ==> s[y] == 0 && s[y - 1] >= 0x80
    ensures Present in ms[y - 1..y + 3]
  {
    var bs := s[..|ms|];
    assert Neighbours(ms[y - 1], bs[y - 1], ms[y], bs[y]);
    assert Neighbours(ms[y], bs[y], ms[y + 1], bs[y + 1]);
    assert Neighbours(ms[y + 1], bs[y + 1], ms[y + 2], bs[y + 2]);
    var near := ms[y - 1..y + 3];
    assert near[0] == ms[y - 1] && near[1] == ms[y] && near[2] == ms[y + 1] && near[3] == ms[y + 2];
  }

  lemma PortEnds(s: Bytes, from: nat) returns (start: nat)
    requires from <= |s| && TakeU16(s[from..]).Got?
    ensures from < start <= |s| && TakeU16(s[from..]).rest == s[start..] && s[start - 1] < 0x80
  {
    var b := s[from..];
    var n := VarintShape(b, 3, 3);
    start := from + n;
    assert b[n..] == s[start..] && b[n - 1] == s[start - 1];
  }

  lemma ProtocolEnds(s: Bytes, start: nat) returns (y: nat)
    requires start <= |s| && TakeProtocol(s[start..]).Got?
    ensures start <= y < |s| && TakeProtocol(s[start..]).rest == s[y + 1..]
    ensures s[y] <= 2 && (y > start ==> s[y] == 0 && s[y - 1] >= 0x80)
  {
    var b := s[start..];
    var n := VarintShape(b, 5, 15);
    y := start + n - 1;
    assert b[n..] == s[y + 1..] && b[n - 1] == s[y];
    if n > 1 { assert b[n - 2] == s[y - 1]; }
  }

  lemma FlagsFollow(s: Bytes, y: nat, to: nat)
    requires y < |s| && to <= |s|
    requires TakeOptionU64(s[y + 1..]).Got? && TakeBool(TakeOptionU64(s[y + 1..]).rest).Got?
    requires |TakeBool(TakeOptionU64(s[y + 1..]).rest).rest| == |s| - to
    ensures y + 2 < to && s[y + 1] <= 1
  {
    var d := s[y + 1..];
    assert d[0] == s[y + 1] && |TakeOptionU64(d).rest| < |d|;
  }

  lemma PassPresent(ms: seq<Mark>, s: Bytes, from: nat, start: nat, y: nat, to: nat)
    requires |ms| <= |s| && Marked(ms, s[..|ms|]) && to <= |ms|
    requires from < start <= y && y + 2 < to
    requires s[start - 1] < 0x80 && s[y] <= 2 && s[y + 1] <= 1
    requires y > start ==> s[y] == 0 && s[y - 1] >= 0x80
    ensures Presents(ms[from..]) >= 1 + Presents(ms[to..])
  {
    PresentNear(ms, s, from, start, y);
    var near := ms[y - 1..y + 3];
    var j :| 0 <= j < |near| && near[j] == Present;
    PresentUsed(ms, from, y - 1 + j, to);
  }

  // The fields after a name, read in the current shape, pass an option byte.
  lemma FieldsPassPresent(ms: seq<Mark>, s: Bytes, from: nat, to: nat)
    requires |ms| <= |s| && Marked(ms, s[..|ms|]) && from <= |s| && to <= |ms|
    requires TakeU16(s[from..]).Got? && TakeProtocol(TakeU16(s[from..]).rest).Got?
    requires var b := TakeProtocol(TakeU16(s[from..]).rest).rest;
             TakeOptionU64(b).Got? && TakeBool(TakeOptionU64(b).rest).Got?
             && |TakeBool(TakeOptionU64(b).rest).rest| == |s| - to
    ensures from < to && Presents(ms[from..]) >= 1 + Presents(ms[to..])
  {
    var start := PortEnds(s, from);
    var y := ProtocolEnds(s, start);
    FlagsFollow(s, y, to);
    PassPresent(ms, s, from, start, y, to);
  }

  // Where a name read at `from` ends.
  lemma NameEnds(s: Bytes, from: nat) returns (end: nat)
    requires from <= |s| && TakeString(s[from..]).Got?
    ensures from < end <= |s| && TakeString(s[from..]).rest == s[end..]
    ensures s[from] < 0x80 ==> end == from + 1 + s[from]
  {
    var b := s[from..];
    var n := VarintShape(b, 10, 1);
    var len := TakeU64(b).value;
    end := from + n + len;
    assert b[n..][len..] == s[end..];
  }

  lemma PredicatePassesPresent(ms: seq<Mark>, s: Bytes, from: nat, end: nat, to: nat)
    requires |ms| <= |s| && Marked(ms, s[..|ms|]) && from <= end <= |s| && to <= |ms|
    requires TakePredicate(s[from..]).Got? && TakeString(s[from..]).rest == s[end..]
    requires |TakePredicate(s[from..]).rest| == |s| - to
    ensures end < to && Presents(ms[end..]) >= 1 + Presents(ms[to..])
  {
    FieldsPassPresent(ms, s, end, to);
  }

  // `r` is the end of `b`.
  ghost predicate Suffix(r: Bytes, b: Bytes) { |r| <= |b| && r == b[|b| - |r|..] }

  lemma SuffixTrans(r: Bytes, m: Bytes, b: Bytes)
    requires Suffix(r, m) && Suffix(m, b)
    ensures Suffix(r, b)
  {
  }

  lemma VarintSuffix(b: Bytes, width: nat, lastMax: Byte)
    requires TakeVarint(b, width, lastMax).Got?
    ensures Suffix(TakeVarint(b, width, lastMax).rest, b)
  {
    var n := VarintShape(b, width, lastMax);
  }

  lemma StringSuffix(b: Bytes)
    requires TakeString(b).Got?
    ensures Suffix(TakeString(b).rest, b)
  {
    VarintSuffix(b, 10, 1);
    SuffixTrans(TakeString(b).rest, TakeU64(b).rest, b);
  }

  lemma OptionSuffix(b: Bytes)
    requires TakeOptionU64(b).Got?
    ensures Suffix(TakeOptionU64(b).rest, b)
  {
    var b1 := TakeBool(b).rest;
    if TakeBool(b).value {
      VarintSuffix(b1, 10, 1);
      SuffixTrans(TakeOptionU64(b).rest, b1, b);
    }
  }

  lemma HeadSuffix(b: Bytes)
    requires TakeString(b).Got? && TakeU16(TakeString(b).rest).Got?
    ensures Suffix(TakeU16(TakeString(b).rest).rest, b)
  {
    var b1 := TakeString(b).rest;
    StringSuffix(b);
    VarintSuffix(b1, 3, 3);
    SuffixTrans(TakeU16(b1).rest, b1, b);
  }

  lemma TailSuffix(b: Bytes)
    requires TakeProtocol(b).Got? && TakeOptionU64(TakeProtocol(b).rest).Got?
    ensures Suffix(TakeOptionU64(TakeProtocol(b).rest).rest, b)
  {
    var b1 := TakeProtocol(b).rest;
    VarintSuffix(b, 5, 15);
    OptionSuffix(b1);
    SuffixTrans(TakeOptionU64(b1).rest, b1, b);
  }

  lemma PredicateSuffix(b: Bytes)
    requires TakePredicate(b).Got?
    ensures Suffix(TakePredicate(b).rest, b)
  {
    var b2 := TakeU16(TakeString(b).rest).rest;
    var b4 := TakeLegacyPredicate(b).rest;
    HeadSuffix(b);
    TailSuffix(b2);
    SuffixTrans(b4, b2, b);
    SuffixTrans(b4[1..], b4, b);
  }

  lemma PredicateEnds(s: Bytes, from: nat) returns (to: nat)
    requires from <= |s| && TakePredicate(s[from..]).Got?
    ensures to <= |s| && TakePredicate(s[from..]).rest == s[to..]
  {
    var rest := TakePredicate(s[from..]).rest;
    PredicateSuffix(s[from..]);
    to := |s| - |rest|;
  }

  lemma ListShrinks(b: Bytes, count: nat)
    requires TakeList(TakePredicate, b, count).Got?
    ensures |TakeList(TakePredicate, b, count).rest| <= |b|
  {
    forall c: Bytes | TakePredicate(c).Got?
      ensures |EncodePredicate(TakePredicate(c).value)| + |TakePredicate(c).rest| <= |c|
    {
      PredicateUses(c);
    }
    ListUses(EncodePredicate, TakePredicate, b, count);
  }

  lemma PresentsShrink(ms: seq<Mark>, from: nat, to: nat)
    requires from <= to <= |ms|
    ensures Presents(ms[to..]) <= Presents(ms[from..])
  {
    assert ms[from..] == ms[from..to] + ms[to..];
    PresentsAppend(ms[from..to], ms[to..]);
  }

  // The first of `count` predicates read at `from`: its name ends at `end`, and
  // from there on the list takes `count` option bytes.
  lemma {:induction false} ListPassesPresents(ms: seq<Mark>, s: Bytes, from: nat, count: nat) returns (end: nat)
    requires |ms| <= |s| && Marked(ms, s[..|ms|]) && from <= |ms| && count > 0
    requires TakeList(TakePredicate, s[from..], count).Got?
    requires |TakeList(TakePredicate, s[from..], count).rest| >= |s| - |ms|
    ensures from < end <= |ms| && (s[from] < 0x80 ==> end == from + 1 + s[from])
    ensures count <= Presents(ms[end..])
    decreases count
  {
    end := NameEnds(s, from);
    var to := PredicateEnds(s, from);
    ListShrinks(s[to..], count - 1);
    PredicatePassesPresent(ms, s, from, end, to);
    if count > 1 {
      var next := ListPassesPresents(ms, s, to, count - 1);
      PresentsShrink(ms, to, next);
    }
  }

  // The option byte of the first predicate comes early: right after a name of
  // one byte it is swallowed by whatever is read as the second name.
  lemma {:induction false} FirstPresentIsEarly(ps: seq<LegacyPredicate>)
    requires ps != [] && |Utf8.Encode(ps[0].name)| == 1
    ensures var ms := AllMarks(ps); forall end :: 7 <= end <= |ms| ==> Presents(ms[end..]) < |ps|
  {
    var ms, p := AllMarks(ps), ps[0];
    var k := |EncodeVarint(p.listenPort)|;
    U16RoundTrip(p.listenPort, []);
    assert |EncodeVarint(1)| == 1;
    assert MarksOf(p)[k + 3] == Present && ms[k + 3] == MarksOf(p)[k + 3];
    PresentsPerPredicate(ps);
    assert ms[0..] == ms;
    forall end | 7 <= end <= |ms|
      ensures Presents(ms[end..]) < |ps|
    {
      PresentUsed(ms, 0, k + 3, end);
    }
  }

  // After its first predicate a legacy list whose next name is one visible
  // byte does not read on as current.
  lemma {:induction false} CannotReadOn(tail: seq<LegacyPredicate>, origin: PubKey)
    requires tail != [] && |Utf8.Encode(tail[0].name)| == 1
    requires forall i :: 0 <= i < |tail| ==> NameOk(tail[i].name)
    ensures !ParsesOn(EncodeList(EncodeLegacyPredicate, tail) + EncodeKey(origin), |tail|)
  {
    var ms, list := AllMarks(tail), EncodeList(EncodeLegacyPredicate, tail);
    var next := list + EncodeKey(origin);
    if ParsesOn(next, |tail|) {
      ListMarked(tail);
      assert next[..|ms|] == list;
      SecondNameByte(tail, next);
      assert TakeBool(next).rest == next[1..];
      var end := ListPassesPresents(ms, next, 1, |tail|);
      FirstPresentIsEarly(tail);
      assert false;
    }
  }

  lemma {:induction false} ReadsOn(s: LegacyPredicateSet)
    requires EncodableLegacySet(s) && s.predicates != []
    ensures var tail := s.predicates[1..];
            TakeSet(EncodeLegacySet(s)).Got?
            ==> ParsesOn(EncodeList(EncodeLegacyPredicate, tail) + EncodeKey(s.origin), |tail|)
  {
    var tail := s.predicates[1..];
    FirstPredicateOf(s);
    if TakeSet(EncodeLegacySet(s)).Got? {
      FirstPredicateThenFlag(
        |s.predicates|, s.predicates[0], EncodeList(EncodeLegacyPredicate, tail) + EncodeKey(s.origin));
    }
  }

  // A second name of one visible byte never lets a legacy set read as current.
  lemma {:induction false} OneByteNameFails(s: LegacyPredicateSet)
    requires EncodableLegacySet(s) && |s.predicates| >= 2 && |Utf8.Encode(s.predicates[1].name)| == 1
    requires forall i :: 0 <= i < |s.predicates| ==> NameOk(s.predicates[i].name)
    ensures TakeSet(EncodeLegacySet(s)).Fail?
  {
    CannotReadOn(s.predicates[1..], s.origin);
    ReadsOn(s);
  }

  lemma {:induction false} SecondNameByte(tail: seq<LegacyPredicate>, next: Bytes)
    requires tail != [] && NameOk(tail[0].name) && |Utf8.Encode(tail[0].name)| == 1
    requires EncodeList(EncodeLegacyPredicate, tail) <= next
    ensures |next| > 2 && next[0] == 1 && 0x20 < next[1] < 0x80
  {
    var p := tail[0];
    var name := Utf8.Encode(p.name);
    assert forall i :: 0 <= i < |p.name| ==> !IsSpaceOrControl(p.name[i]);
    NameBytes(p.name);
    assert EncodeVarint(1) == [1];
    assert EncodeLegacyPredicate(p)[..2] == [1] + name;
    assert EncodeList(EncodeLegacyPredicate, tail)[..2] == EncodeLegacyPredicate(p)[..2];
    assert name == Utf8.EncodeChar(p.name[0]) + Utf8.Encode(p.name[1..]);
  }

  // Every legacy set whose names are valid decodes to itself with HTTP/3 off.
  lemma {:induction false} ValidLegacyDecodes(s: LegacyPredicateSet)
    requires EncodableLegacySet(s)
    requires forall i :: 0 <= i < |s.predicates| ==> NameOk(s.predicates[i].name)
    ensures FromWireBytes(EncodeLegacySet(s)) == Ok(IntoCurrent(s))
  {
    if |s.predicates| == 1 {
      SingleLegacyFailsAsCurrent(s);
    } else if |s.predicates| >= 2 {
      var name := s.predicates[1].name;
      assert forall i :: 0 <= i < |name| ==> !IsSpaceOrControl(name[i]);
      NameBytes(name);
      if |Utf8.Encode(name)| >= 2 {
        SecondNameDecides(s);
      } else {
        OneByteNameFails(s);
      }
    }
    LegacyDecodesIff(s);
  }
}
