// The staging store for peers that knocked without being enrolled.
module PendingPeers {
  import opened Prelude
  import opened Postcard
  import opened Text
  import Utf8

  const MIN_FINGERPRINT_PREFIX_LEN := 8
  const X25519 := "x25519"

  // `hash` is the key's digest in hex; what it computes plays no part here.
  type Hash = PubKey -> string

  datatype Candidate = Candidate(key: PubKey, firstSeenMs: U64, attempts: U64)

  datatype Outcome =
    | Approved(fingerprint: string, key: PubKey)
    | NotFound
    | Ambiguous(matches: seq<string>)
    | PrefixTooShort(provided: nat, required: nat)

  function Fingerprint(hash: Hash, k: PubKey): string { X25519 + ":" + hash(k) }

  lemma FingerprintSplits(hash: Hash, k: PubKey)
    ensures SplitOnce(Fingerprint(hash, k), ':') == Some((X25519, hash(k)))
  {
    var fp := Fingerprint(hash, k);
    assert fp[..6] == X25519 && fp[6] == ':' && fp[7..] == hash(k);
    FindIs(fp, ':', 6);
  }

  // ---- Queries ----

  // An optional algorithm and the hex digits to look for.
  datatype Query = Query(algo: Option<string>, tail: string)

  function Normalised(query: string): Query {
    var s := Lower(Trim(query));
    match SplitOnce(s, ':')
    case None => Query(None, s)
    case Some((algo, tail)) => Query(Some(algo), tail)
  }

  predicate IsHexDigit(c: char) { IsLowerHex(c) || 'A' <= c <= 'F' }

  predicate LongEnough(q: Query) { |Utf8.Encode(q.tail)| >= MIN_FINGERPRINT_PREFIX_LEN }

  predicate AllHex(q: Query) { forall i :: 0 <= i < |q.tail| ==> IsHexDigit(q.tail[i]) }

  predicate Matches(hash: Hash, q: Query, k: PubKey) {
    (q.algo.Some? ==> q.algo.value == X25519) && q.tail <= hash(k)
  }

  // The candidates a query picks out.
  predicate Picks(hash: Hash, q: Query, k: PubKey) { LongEnough(q) && AllHex(q) && Matches(hash, q, k) }

  // ---- The store ----

  // A first knock appends, a repeated one counts.
  function Recorded(cs: seq<Candidate>, k: PubKey, now: U64): seq<Candidate> {
    if cs == [] then [Candidate(k, now, 1)]
    else if cs[0].key == k then [cs[0].(attempts := Min(cs[0].attempts + 1, U64_MAX))] + cs[1..]
    else [cs[0]] + Recorded(cs[1..], k, now)
  }

  // The positions of the candidates picked, in order.
  function Picked(hash: Hash, q: Query, cs: seq<Candidate>): (r: seq<nat>)
    ensures forall i :: 0 <= i < |r| ==> r[i] < |cs| && Picks(hash, q, cs[r[i]].key)
    ensures forall i, j :: 0 <= i < j < |r| ==> r[i] < r[j]
    ensures forall i :: 0 <= i < |cs| && Picks(hash, q, cs[i].key) ==> i in r
  {
    if cs == [] then []
    else
      var n := |cs| - 1;
      Picked(hash, q, cs[..n]) + if Picks(hash, q, cs[n].key) then [n] else []
  }

  function Without(cs: seq<Candidate>, i: nat): seq<Candidate>
    requires i < |cs|
  {
    cs[..i] + cs[i + 1..]
  }

  // The store after an approval.
  function ApprovedStore(hash: Hash, cs: seq<Candidate>, query: string): seq<Candidate> {
    var picked := Picked(hash, Normalised(query), cs);
    if |picked| == 1 then Without(cs, picked[0]) else cs
  }

  function Fingerprints(hash: Hash, cs: seq<Candidate>, at: seq<nat>): seq<string>
    requires forall i :: 0 <= i < |at| ==> at[i] < |cs|
  {
    seq(|at|, i requires 0 <= i < |at| => Fingerprint(hash, cs[at[i]].key))
  }

  function Answer(hash: Hash, cs: seq<Candidate>, query: string): Outcome {
    var q := Normalised(query);
    var picked := Picked(hash, q, cs);
    if !LongEnough(q) then PrefixTooShort(|Utf8.Encode(q.tail)|, MIN_FINGERPRINT_PREFIX_LEN)
    else if picked == [] then NotFound
    else if |picked| == 1 then Approved(Fingerprint(hash, cs[picked[0]].key), cs[picked[0]].key)
    else Ambiguous(Fingerprints(hash, cs, picked))
  }

  lemma SplitOff<T>(s: seq<T>, i: nat)
    requires 0 < i <= |s|
    ensures s[1..][i - 1..] == s[i..] && s[..i] == [s[0]] + s[1..][..i - 1]
  {
  }

  lemma {:induction false} RecordedFrom(cs: seq<Candidate>, k: PubKey, now: U64, i: nat)
    requires i <= |cs| && forall j :: 0 <= j < i ==> cs[j].key != k
    ensures Recorded(cs, k, now) == cs[..i] + Recorded(cs[i..], k, now)
    decreases i
  {
    if i > 0 {
      RecordedFrom(cs[1..], k, now, i - 1);
      SplitOff(cs, i);
      Associate([cs[0]], cs[1..][..i - 1], Recorded(cs[i..], k, now));
    } else {
      assert cs[0..] == cs;
    }
  }

  // A first knock goes to the end; a repeated one is counted where it is, up to
  // what 64 bits hold, and keeps the time of the first.
  lemma RecordedIs(cs: seq<Candidate>, k: PubKey, now: U64, i: nat)
    requires i <= |cs| && (forall j :: 0 <= j < i ==> cs[j].key != k) && (i < |cs| ==> cs[i].key == k)
    ensures Recorded(cs, k, now)
            == if i == |cs| then cs + [Candidate(k, now, 1)]
               else
                 var n := cs[i].attempts;
                 cs[..i] + [Candidate(k, cs[i].firstSeenMs, if n == U64_MAX then n else n + 1)] + cs[i + 1..]
  {
    RecordedFrom(cs, k, now, i);
    if i < |cs| { assert cs[i..][1..] == cs[i + 1..]; } else { assert cs[..i] == cs; }
  }

  lemma PickedStep(hash: Hash, q: Query, cs: seq<Candidate>, i: nat)
    requires i < |cs|
    ensures Picked(hash, q, cs[..i + 1]) == Picked(hash, q, cs[..i]) + if Picks(hash, q, cs[i].key) then [i] else []
  {
    assert cs[..i + 1][..i] == cs[..i];
  }

  lemma NothingPicked(hash: Hash, q: Query, cs: seq<Candidate>)
    ensures !LongEnough(q) || !AllHex(q) ==> Picked(hash, q, cs) == []
  {
    var picked := Picked(hash, q, cs);
    assert |picked| > 0 ==> Picks(hash, q, cs[picked[0]].key);
  }

  class PendingPeerStore {
    const hash: Hash
    var candidates: seq<Candidate>

    constructor (hash: Hash)
      ensures this.hash == hash && candidates == []
    {
      this.hash := hash;
      candidates := [];
    }

    method RecordCandidate(k: PubKey, now: U64)
      modifies this
      ensures candidates == Recorded(old(candidates), k, now)
    {
      var cs := candidates;
      var i := 0;
      while i < |cs| && cs[i].key != k
        invariant 0 <= i <= |cs| && forall j :: 0 <= j < i ==> cs[j].key != k
      {
        i := i + 1;
      }
      RecordedFrom(cs, k, now, i);
      if i < |cs| {
        var c := cs[i];
        candidates := cs[i := c.(attempts := Min(c.attempts + 1, U64_MAX))];
        assert cs[i..][1..] == cs[i + 1..];
      } else {
        candidates := cs + [Candidate(k, now, 1)];
      }
    }

    // The filter over the staged candidates.
    method Matching(q: Query, cs: seq<Candidate>) returns (matches: seq<nat>)
      requires LongEnough(q) && AllHex(q)
      ensures matches == Picked(hash, q, cs)
    {
      matches := [];
      for i := 0 to |cs|
        invariant matches == Picked(hash, q, cs[..i])
      {
        PickedStep(hash, q, cs, i);
        FingerprintSplits(hash, cs[i].key);
        var parts := SplitOnce(Fingerprint(hash, cs[i].key), ':').value;
        if (q.algo.None? || q.algo.value == parts.0) && q.tail <= parts.1 {
          matches := matches + [i];
        }
      }
      assert cs[..|cs|] == cs;
    }

    method Approve(query: string) returns (r: Outcome)
      modifies this
      ensures r == Answer(hash, old(candidates), query)
      ensures candidates == ApprovedStore(hash, old(candidates), query)
    {
      var q := Normalised(query);
      var cs := candidates;
      NothingPicked(hash, q, cs);
      var provided := |Utf8.Encode(q.tail)|;
      if provided < MIN_FINGERPRINT_PREFIX_LEN {
        return PrefixTooShort(provided, MIN_FINGERPRINT_PREFIX_LEN);
      }
      if !AllHex(q) { return NotFound; }
      var matches := Matching(q, cs);
      if matches == [] {
        r := NotFound;
      } else if |matches| == 1 {
        var removed := cs[matches[0]];
        candidates := Without(cs, matches[0]);
        r := Approved(Fingerprint(hash, removed.key), removed.key);
      } else {
        r := Ambiguous(Fingerprints(hash, cs, matches));
      }
    }
  }

  // ---- Runs ----

  datatype Event = Knock(key: PubKey, now: U64) | Approval(query: string)

  function After(hash: Hash, events: seq<Event>): seq<Candidate> {
    if events == [] then []
    else
      var cs := After(hash, events[..|events| - 1]);
      match Last(events)
      case Knock(k, now) => Recorded(cs, k, now)
      case Approval(query) => ApprovedStore(hash, cs, query)
  }

  // The times at which `k` knocked since it was last approved.
  ghost function KnocksSince(hash: Hash, events: seq<Event>, k: PubKey): seq<U64> {
    if events == [] then []
    else
      var before := events[..|events| - 1];
      match Last(events)
      case Knock(key, now) => KnocksSince(hash, before, k) + if key == k then [now] else []
      case Approval(query) =>
        if Approves(hash, After(hash, before), query, k) then [] else KnocksSince(hash, before, k)
  }

  ghost predicate Approves(hash: Hash, cs: seq<Candidate>, query: string, k: PubKey) {
    var r := Answer(hash, cs, query); r.Approved? && r.key == k
  }

  // The entries of one key, in order.
  ghost function Entries(cs: seq<Candidate>, k: PubKey): seq<Candidate> {
    if cs == [] then [] else (if cs[0].key == k then [cs[0]] else []) + Entries(cs[1..], k)
  }

  lemma {:induction false} EntriesAppend(a: seq<Candidate>, b: seq<Candidate>, k: PubKey)
    ensures Entries(a + b, k) == Entries(a, k) + Entries(b, k)
  {
    if a == [] {
      assert a + b == b;
    } else {
      assert (a + b)[1..] == a[1..] + b && (a + b)[0] == a[0];
      EntriesAppend(a[1..], b, k);
      var head := if a[0].key == k then [a[0]] else [];
      var x, y := Entries(a[1..], k), Entries(b, k);
      assert head + (x + y) == (head + x) + y;
    }
  }

  lemma EntriesAround(cs: seq<Candidate>, i: nat, k: PubKey)
    requires i < |cs|
    ensures Entries(cs, k) == Entries(cs[..i], k) + (if cs[i].key == k then [cs[i]] else []) + Entries(cs[i + 1..], k)
    ensures Entries(Without(cs, i), k) == Entries(cs[..i], k) + Entries(cs[i + 1..], k)
  {
    assert cs == cs[..i] + cs[i..] && cs[i..][1..] == cs[i + 1..];
    EntriesAppend(cs[..i], cs[i..], k);
    EntriesAppend(cs[..i], cs[i + 1..], k);
  }

  // One more knock on a key's entries.
  ghost function Knocked(es: seq<Candidate>, k: PubKey, now: U64): seq<Candidate> {
    if es == [] then [Candidate(k, now, 1)]
    else [es[0].(attempts := Min(es[0].attempts + 1, U64_MAX))] + es[1..]
  }

  lemma {:induction false} EntriesOfOther(cs: seq<Candidate>, k: PubKey, now: U64, key: PubKey)
    requires key != k
    ensures Entries(Recorded(cs, k, now), key) == Entries(cs, key)
  {
    if cs != [] && cs[0].key != k { EntriesOfOther(cs[1..], k, now, key); }
  }

  lemma {:induction false} EntriesOfSame(cs: seq<Candidate>, k: PubKey, now: U64)
    ensures Entries(Recorded(cs, k, now), k) == Knocked(Entries(cs, k), k, now)
  {
    if cs != [] {
      if cs[0].key == k {
        assert Entries(cs, k)[1..] == Entries(cs[1..], k);
        assert Recorded(cs, k, now)[1..] == cs[1..];
      } else {
        EntriesOfSame(cs[1..], k, now);
        assert Recorded(cs, k, now)[1..] == Recorded(cs[1..], k, now);
      }
    }
  }

  // What a key that knocked at these times looks like in the store.
  ghost function EntryFor(k: PubKey, knocks: seq<U64>): seq<Candidate> {
    if knocks == [] then [] else [Candidate(k, knocks[0], Min(|knocks|, U64_MAX))]
  }

  lemma KnockedEntry(k: PubKey, knocks: seq<U64>, now: U64)
    ensures Knocked(EntryFor(k, knocks), k, now) == EntryFor(k, knocks + [now])
  {
  }

  lemma EntriesApproved(hash: Hash, cs: seq<Candidate>, query: string, k: PubKey)
    requires |Entries(cs, k)| <= 1
    ensures Entries(ApprovedStore(hash, cs, query), k)
            == if Approves(hash, cs, query, k) then [] else Entries(cs, k)
  {
    var q := Normalised(query);
    var picked := Picked(hash, q, cs);
    NothingPicked(hash, q, cs);
    if |picked| == 1 { EntriesAround(cs, picked[0], k); }
  }

  // Over any run: a key is staged exactly when it has knocked since it was
  // last approved, in one entry that counts those knocks, saturating, and
  // remembers the first.
  lemma {:induction false} EntriesCountKnocks(hash: Hash, events: seq<Event>, k: PubKey)
    ensures Entries(After(hash, events), k) == EntryFor(k, KnocksSince(hash, events, k))
    decreases |events|
  {
    if events != [] {
      var before := events[..|events| - 1];
      EntriesCountKnocks(hash, before, k);
      match Last(events)
      case Knock(key, now) =>
        if key == k {
          EntriesOfSame(After(hash, before), k, now);
          KnockedEntry(k, KnocksSince(hash, before, k), now);
        } else {
          EntriesOfOther(After(hash, before), key, now, k);
          assert KnocksSince(hash, events, k) == KnocksSince(hash, before, k);
        }
      case Approval(query) => EntriesApproved(hash, After(hash, before), query, k);
    }
  }

  lemma TwoEntries(cs: seq<Candidate>, i: nat, j: nat)
    requires i < j < |cs| && cs[i].key == cs[j].key
    ensures |Entries(cs, cs[i].key)| >= 2
  {
    var k := cs[i].key;
    EntriesAround(cs, i, k);
    EntriesAround(cs[i + 1..], j - i - 1, k);
  }

  // No key is ever staged twice.
  lemma KeysStayDistinct(hash: Hash, events: seq<Event>)
    ensures KeysDistinct((c: Candidate) => c.key, After(hash, events))
  {
    var cs := After(hash, events);
    forall i, j | 0 <= i < j < |cs|
      ensures cs[i].key != cs[j].key
    {
      EntriesCountKnocks(hash, events, cs[i].key);
      if cs[i].key == cs[j].key { TwoEntries(cs, i, j); }
    }
  }

  // A query picks staged candidate `i` and no other.
  ghost predicate PicksOnly(hash: Hash, cs: seq<Candidate>, query: string, i: nat)
    requires i < |cs|
  {
    && Picks(hash, Normalised(query), cs[i].key)
    && forall j :: 0 <= j < |cs| && j != i ==> !Picks(hash, Normalised(query), cs[j].key)
  }

  lemma SinglePick(hash: Hash, q: Query, cs: seq<Candidate>, i: nat)
    requires i < |cs| && Picks(hash, q, cs[i].key)
    requires forall j :: 0 <= j < |cs| && j != i ==> !Picks(hash, q, cs[j].key)
    ensures Picked(hash, q, cs) == [i]
  {
    SoleElement(Picked(hash, q, cs), i);
  }

  // Approval removes candidate `i` when the query picks it alone ...
  lemma SoleMatchIsApproved(hash: Hash, cs: seq<Candidate>, query: string, i: nat)
    requires i < |cs| && PicksOnly(hash, cs, query, i)
    ensures ApprovedStore(hash, cs, query) == cs[..i] + cs[i + 1..] && Approves(hash, cs, query, cs[i].key)
  {
    SinglePick(hash, Normalised(query), cs, i);
  }

  // ... and only then; otherwise the store is untouched.
  lemma ApprovalNeedsSoleMatch(hash: Hash, cs: seq<Candidate>, query: string)
    requires ApprovedStore(hash, cs, query) != cs || Answer(hash, cs, query).Approved?
    ensures exists i :: 0 <= i < |cs| && PicksOnly(hash, cs, query, i)
  {
    var q := Normalised(query);
    var picked := Picked(hash, q, cs);
    assert |picked| == 1;
    assert forall j :: 0 <= j < |cs| && Picks(hash, q, cs[j].key) ==> j in picked;
    assert PicksOnly(hash, cs, query, picked[0]);
  }

  // ---- What a query answers ----

  // The staged keys a query picks, oldest first.
  ghost function PickedKeys(hash: Hash, cs: seq<Candidate>, query: string): seq<PubKey> {
    if cs == [] then []
    else
      var k := Last(cs).key;
      PickedKeys(hash, cs[..|cs| - 1], query) + if Picks(hash, Normalised(query), k) then [k] else []
  }

  ghost predicate Inside(cs: seq<Candidate>, at: seq<nat>) { forall i :: 0 <= i < |at| ==> at[i] < |cs| }

  ghost function KeysAt(cs: seq<Candidate>, at: seq<nat>): seq<PubKey>
    requires Inside(cs, at)
  {
    seq(|at|, i requires 0 <= i < |at| => cs[at[i]].key)
  }

  lemma KeysAtNext(cs: seq<Candidate>, at: seq<nat>, hit: bool)
    requires cs != [] && Inside(cs[..|cs| - 1], at)
    ensures Inside(cs, at + if hit then [|cs| - 1] else [])
    ensures KeysAt(cs, at + if hit then [|cs| - 1] else [])
            == KeysAt(cs[..|cs| - 1], at) + if hit then [Last(cs).key] else []
  {
  }

  lemma {:induction false} PickedAreKeys(hash: Hash, cs: seq<Candidate>, query: string)
    ensures PickedKeys(hash, cs, query) == KeysAt(cs, Picked(hash, Normalised(query), cs))
    decreases |cs|
  {
    if cs != [] {
      var n, q := |cs| - 1, Normalised(query);
      var hit := Picks(hash, q, cs[n].key);
      PickedAreKeys(hash, cs[..n], query);
      KeysAtNext(cs, Picked(hash, q, cs[..n]), hit);
    }
  }

  // Too short a query says so, with its length and the eight bytes it takes;
  // otherwise the answer tells how many candidates are picked, and which.
  lemma AnswerIs(hash: Hash, cs: seq<Candidate>, query: string)
    ensures var bytes, keys := |Utf8.Encode(Normalised(query).tail)|, PickedKeys(hash, cs, query);
            Answer(hash, cs, query)
            == if bytes < 8 then PrefixTooShort(bytes, 8)
               else if |keys| == 0 then NotFound
               else if |keys| == 1 then Approved("x25519:" + hash(keys[0]), keys[0])
               else Ambiguous(Map((k: PubKey) => "x25519:" + hash(k), keys))
  {
    PickedAreKeys(hash, cs, query);
    assert X25519 + ":" == "x25519:";
    var picked := Picked(hash, Normalised(query), cs);
    if |picked| > 1 {
      assert Fingerprints(hash, cs, picked) == Map((k: PubKey) => "x25519:" + hash(k), PickedKeys(hash, cs, query));
    }
  }

  // ---- Longer queries ----

  lemma {:induction false} TrimStartKeeps(s: string, extra: string)
    requires TrimStart(s) != []
    ensures TrimStart(s + extra) == TrimStart(s) + extra
  {
    if IsWhitespace(s[0]) {
      assert (s + extra)[1..] == s[1..] + extra;
      TrimStartKeeps(s[1..], extra);
    }
  }

  // Trimming the end never reaches into text that ends in something visible.
  lemma {:induction false} TrimEndKeeps(s: string, n: nat)
    requires 0 < n <= |s| && !IsWhitespace(s[n - 1])
    ensures s[..n] <= TrimEnd(s)
    decreases |s|
  {
    if IsWhitespace(Last(s)) {
      var t := s[..|s| - 1];
      assert t[..n] == s[..n];
      TrimEndKeeps(t, n);
    }
  }

  lemma {:induction false} TrimEndIs(s: string)
    ensures TrimEnd(s) <= s && (TrimEnd(s) != [] ==> !IsWhitespace(Last(TrimEnd(s))))
    decreases |s|
  {
    if s != [] && IsWhitespace(Last(s)) { TrimEndIs(s[..|s| - 1]); }
  }

  // What a query with visible text looks for survives at the front of any
  // longer query.
  lemma TrimmedPrefix(query: string, extra: string)
    requires Trim(query) != []
    ensures Trim(query) <= Trim(query + extra)
  {
    var t := TrimStart(query);
    TrimEndIs(t);
    TrimStartKeeps(query, extra);
    var n := |Trim(query)|;
    assert (t + extra)[..n] == Trim(query);
    TrimEndKeeps(t + extra, n);
  }

  lemma {:induction false} EncodedPrefix(s: string, t: string)
    ensures |Utf8.Encode(s)| <= |Utf8.Encode(s + t)|
  {
    if s != [] {
      assert (s + t)[1..] == s[1..] + t;
      EncodedPrefix(s[1..], t);
    }
  }

  // A prefix of the algorithm's name is too short a query.
  lemma AlgorithmIsShort(s: string)
    requires s <= X25519
    ensures |Utf8.Encode(s)| < MIN_FINGERPRINT_PREFIX_LEN
  {
    assert X25519 == s + X25519[|s|..];
    EncodedPrefix(s, X25519[|s|..]);
    assert |Utf8.Encode(X25519)| == 6;
  }

  // A longer text splits like a shorter one, or at a colon further on.
  lemma SplitPrefix(s: string, t: string)
    requires s <= t
    ensures match Find(s, ':')
            case Some(i) => Find(t, ':') == Some(i)
            case None => Find(t, ':').Some? ==> s <= t[..Find(t, ':').value]
  {
    match Find(s, ':')
    case Some(i) =>
      assert t[..i] == s[..i];
      FindIs(t, ':', i);
    case None =>
      if Find(t, ':').Some? {
        var j := Find(t, ':').value;
        assert forall m :: 0 <= m < |s| ==> t[m] in s;
        assert t[..j][..|s|] == s;
      }
  }

  lemma LongQueryIsVisible(query: string)
    requires LongEnough(Normalised(query))
    ensures Trim(query) != []
  {
    assert Lower([]) == [] && Utf8.Encode([]) == [];
  }

  // Lengthening a query that is long enough, by any text whatever, never picks
  // anything new.
  lemma LongerQueryPicksLess(hash: Hash, query: string, extra: string, k: PubKey)
    requires LongEnough(Normalised(query)) && Picks(hash, Normalised(query + extra), k)
    ensures Picks(hash, Normalised(query), k)
  {
    var s, t := Lower(Trim(query)), Lower(Trim(query + extra));
    LongQueryIsVisible(query);
    TrimmedPrefix(query, extra);
    assert s <= t;
    SplitPrefix(s, t);
    var q, r := Normalised(query), Normalised(query + extra);
    if Find(s, ':').None? && Find(t, ':').Some? {
      AlgorithmIsShort(s);
    }
    if Find(s, ':').Some? {
      var i := Find(s, ':').value;
      assert t[..i] == s[..i] && t[i + 1..][..|s| - i - 1] == s[i + 1..];
    }
    assert q.tail <= r.tail && q.algo == r.algo;
    assert forall i :: 0 <= i < |q.tail| ==> q.tail[i] == r.tail[i];
  }

  // ---- Short queries ----

  // A key's digest: sixteen bytes in hex.
  ghost predicate IsDigest(h: string) { |h| == 32 && forall i :: 0 <= i < |h| ==> IsLowerHex(h[i]) }

  lemma {:induction false} HexLength(s: string)
    requires forall i :: 0 <= i < |s| ==> IsLowerHex(s[i])
    ensures |Utf8.Encode(s)| == |s|
  {
    if s != [] { HexLength(s[1..]); }
  }

  // Characters of digests and fingerprints.
  predicate PlainChar(c: char) { IsLowerHex(c) || c == ':' || c == 'x' }

  ghost predicate Plain(s: string) { forall i :: 0 <= i < |s| ==> PlainChar(s[i]) }

  lemma LowerPlain(s: string)
    requires Plain(s)
    ensures Lower(s) == s
  {
  }

  lemma PlainIsTrimmed(s: string)
    requires s != [] && Plain(s)
    ensures Trim(s) == s
  {
    assert PlainChar(s[0]) && PlainChar(s[|s| - 1]);
  }

  lemma HexQuery(s: string)
    requires s != [] && forall i :: 0 <= i < |s| ==> IsLowerHex(s[i])
    ensures Normalised(s) == Query(None, s) && |Utf8.Encode(s)| == |s|
  {
    HexLength(s);
    assert Plain(s);
    LowerPlain(s);
    PlainIsTrimmed(s);
    assert ':' !in s;
  }

  // Whatever the key: seven characters of its digest pick nothing, eight pick it.
  lemma EighthCharacterPicks(hash: Hash, k: PubKey)
    requires IsDigest(hash(k))
    ensures !Picks(hash, Normalised(hash(k)[..7]), k) && Picks(hash, Normalised(hash(k)[..8]), k)
  {
    HexQuery(hash(k)[..7]);
    HexQuery(hash(k)[..8]);
  }

  // What a query looks for once blanks in front are gone and case is folded.
  function Visible(query: string): string { Lower(TrimStart(query)) }

  lemma {:induction false} TrimStartOfBlank(s: string, extra: string)
    requires TrimStart(s) == []
    ensures TrimStart(s + extra) == TrimStart(extra)
  {
    if s == [] {
      assert s + extra == extra;
    } else {
      assert (s + extra)[1..] == s[1..] + extra;
      TrimStartOfBlank(s[1..], extra);
    }
  }

  // Appending text that starts visibly to a query appends it to what is left
  // of the query.
  lemma VisibleAppend(query: string, extra: string)
    requires TrimStart(query) != [] || (extra != [] && !IsWhitespace(extra[0]))
    ensures TrimStart(query + extra) == TrimStart(query) + extra
  {
    if TrimStart(query) == [] {
      TrimStartOfBlank(query, extra);
    } else {
      TrimStartKeeps(query, extra);
    }
  }

  lemma LowerAppend(a: string, b: string)
    ensures Lower(a + b) == Lower(a) + Lower(b)
  {
  }

  // A query that begins like `goal` can be completed to it.
  lemma Complete(query: string, goal: string)
    requires Plain(goal) && goal != [] && Visible(query) <= goal
    ensures Lower(Trim(query + goal[|Visible(query)|..])) == goal
  {
    var t, rest := TrimStart(query), goal[|Visible(query)|..];
    assert forall i :: 0 <= i < |rest| ==> rest[i] == goal[|Visible(query)| + i];
    CompletedText(query, rest);
    LowerPlain(rest);
    LowerAppend(t, rest);
    assert Lower(t + rest) == goal;
    EndsVisibly(t + rest, goal);
  }

  lemma CompletedText(query: string, rest: string)
    requires Plain(rest)
    ensures TrimStart(query + rest) == TrimStart(query) + rest
  {
    if rest == [] {
      assert query + rest == query && TrimStart(query) + rest == TrimStart(query);
    } else {
      assert PlainChar(rest[0]);
      VisibleAppend(query, rest);
    }
  }

  lemma EndsVisibly(s: string, goal: string)
    requires s != [] && Lower(s) == goal && Plain(goal)
    ensures TrimEnd(s) == s
  {
    assert PlainChar(LowerChar(s[|s| - 1])) by { assert Lower(s)[|s| - 1] == goal[|s| - 1]; }
  }

  // What trimming leaves of a longer text that it cuts into is what it leaves
  // of the shorter one.
  lemma {:induction false} TrimEndOfPrefix(s: string, n: nat)
    requires |TrimEnd(s)| <= n <= |s|
    ensures TrimEnd(s[..n]) == TrimEnd(s)
    decreases |s|
  {
    if n < |s| {
      var t := s[..|s| - 1];
      assert t[..n] == s[..n];
      TrimEndOfPrefix(t, n);
    } else {
      assert s[..n] == s;
    }
  }

  // If trimming a longer query cuts into the query, only blanks were added.
  lemma OnlyBlanksAdded(query: string, extra: string)
    requires TrimStart(query) != [] && |Trim(query + extra)| < |TrimStart(query)|
    ensures Trim(query) == Trim(query + extra)
  {
    var t := TrimStart(query);
    TrimStartKeeps(query, extra);
    TrimEndOfPrefix(t + extra, |t|);
    assert (t + extra)[..|t|] == t;
  }

  // A longer query that is long enough where the query was not keeps all of
  // the query's visible text.
  lemma VisibleSurvives(query: string, extra: string)
    requires !LongEnough(Normalised(query)) && LongEnough(Normalised(query + extra))
    ensures Visible(query) <= Lower(Trim(query + extra))
  {
    var t, u := TrimStart(query), Trim(query + extra);
    if t != [] {
      if |u| < |t| { OnlyBlanksAdded(query, extra); }
      TrimStartKeeps(query, extra);
      TrimEndIs(t + extra);
      LowerPrefix(t, u, extra);
    }
  }

  lemma LowerPrefix(t: string, u: string, extra: string)
    requires u <= t + extra && |t| <= |u|
    ensures Lower(t) <= Lower(u)
  {
  }

  // A query that picks a key spells the start of its digest or fingerprint.
  lemma PickSpells(hash: Hash, query: string, k: PubKey)
    requires Picks(hash, Normalised(query), k)
    ensures Lower(Trim(query)) <= hash(k) || Lower(Trim(query)) <= Fingerprint(hash, k)
  {
    var s := Lower(Trim(query));
    match Find(s, ':')
    case None =>
    case Some(i) =>
      assert s == s[..i] + ":" + s[i + 1..];
      assert Fingerprint(hash, k)[|X25519| + 1..] == hash(k);
  }

  lemma SpellingPicks(hash: Hash, query: string, k: PubKey)
    requires IsDigest(hash(k)) && (Lower(Trim(query)) == hash(k) || Lower(Trim(query)) == Fingerprint(hash, k))
    ensures Picks(hash, Normalised(query), k)
  {
    HexLength(hash(k));
    if Lower(Trim(query)) == hash(k) {
      assert ':' !in hash(k);
    } else {
      FingerprintSplits(hash, k);
    }
  }

  lemma PlainQueryPicksIff(hash: Hash, query: string, k: PubKey)
    requires IsDigest(hash(k)) && Find(Lower(Trim(query)), ':').None?
    ensures var s := Lower(Trim(query)); Picks(hash, Normalised(query), k) <==> |s| >= 8 && s <= hash(k)
  {
    var s := Lower(Trim(query));
    if s <= hash(k) {
      assert forall i :: 0 <= i < |s| ==> s[i] == hash(k)[i];
      HexLength(s);
    }
  }

  lemma NamedQueryPicksIff(hash: Hash, query: string, k: PubKey)
    requires IsDigest(hash(k)) && Find(Lower(Trim(query)), ':').Some?
    ensures var s := Lower(Trim(query));
            Picks(hash, Normalised(query), k) <==> |s| >= 15 && s <= "x25519:" + hash(k)
  {
    var s, fp := Lower(Trim(query)), "x25519:" + hash(k);
    var i := Find(s, ':').value;
    var algo, tail := s[..i], s[i + 1..];
    assert s == algo + ":" + tail && X25519 + ":" == "x25519:";
    if tail <= hash(k) {
      assert forall j :: 0 <= j < |tail| ==> tail[j] == hash(k)[j];
      HexLength(tail);
    }
    if |s| >= 15 && s <= fp { NamedSplits(s, hash(k)); }
  }

  lemma NamedSplits(s: string, h: string)
    requires |s| >= 7 && s <= "x25519:" + h
    ensures Find(s, ':') == Some(6) && s[..6] == X25519 && s[7..] <= h
  {
    var fp := "x25519:" + h;
    assert s[..6] == fp[..6] == X25519 && s[6] == fp[6] == ':';
    FindIs(s, ':', 6);
    assert s[7..] == fp[..|s|][7..] && fp[7..] == h;
  }

  // A query picks a key exactly when, trimmed and in lower case, it spells the
  // digest from its start for at least eight characters, with or without the
  // algorithm's name in front.
  lemma PicksIff(hash: Hash, query: string, k: PubKey)
    requires IsDigest(hash(k))
    ensures var s := Lower(Trim(query));
            Picks(hash, Normalised(query), k)
            <==> (|s| >= 8 && s <= hash(k)) || (|s| >= 15 && s <= "x25519:" + hash(k))
  {
    var s := Lower(Trim(query));
    ColonIn(s, hash(k));
    if Find(s, ':').None? { PlainQueryPicksIff(hash, query, k); } else { NamedQueryPicksIff(hash, query, k); }
  }

  lemma ColonIn(s: string, h: string)
    requires ':' !in h
    ensures s <= h ==> ':' !in s
    ensures |s| >= 15 && s <= "x25519:" + h ==> ':' in s
  {
    assert ("x25519:" + h)[6] == ':';
  }

  // What trimming does: it takes blanks off both ends, and all of them.
  lemma TrimIs(s: string) returns (front: string, back: string)
    ensures s == front + Trim(s) + back
    ensures (forall i :: 0 <= i < |front| ==> IsWhitespace(front[i]))
    ensures (forall i :: 0 <= i < |back| ==> IsWhitespace(back[i]))
    ensures Trim(s) != [] ==> !IsWhitespace(Trim(s)[0]) && !IsWhitespace(Last(Trim(s)))
  {
    front := FrontBlanks(s);
    back := BackBlanks(TrimStart(s));
    TrimEndIs(TrimStart(s));
    Associate(front, Trim(s), back);
  }

  lemma {:induction false} FrontBlanks(s: string) returns (front: string)
    ensures s == front + TrimStart(s) && forall i :: 0 <= i < |front| ==> IsWhitespace(front[i])
    ensures TrimStart(s) != [] ==> !IsWhitespace(TrimStart(s)[0])
  {
    if s != [] && IsWhitespace(s[0]) {
      var rest := FrontBlanks(s[1..]);
      front := [s[0]] + rest;
      assert s == [s[0]] + s[1..];
      Associate([s[0]], rest, TrimStart(s));
    } else {
      front := [];
    }
  }

  lemma {:induction false} BackBlanks(s: string) returns (back: string)
    ensures s == TrimEnd(s) + back && forall i :: 0 <= i < |back| ==> IsWhitespace(back[i])
    decreases |s|
  {
    if s != [] && IsWhitespace(Last(s)) {
      var rest := BackBlanks(s[..|s| - 1]);
      back := rest + [Last(s)];
      assert s == s[..|s| - 1] + [Last(s)];
      Associate(TrimEnd(s), rest, [Last(s)]);
    } else {
      back := [];
    }
  }

  // A query that is too short can be lengthened to pick a key exactly when it
  // spells the start of the key's digest or of its fingerprint.
  lemma ShortQueryGrowsIff(hash: Hash, query: string, k: PubKey)
    requires IsDigest(hash(k)) && !LongEnough(Normalised(query))
    ensures (exists extra :: Picks(hash, Normalised(query + extra), k))
       <==> Visible(query) <= hash(k) || Visible(query) <= Fingerprint(hash, k)
  {
    if extra :| Picks(hash, Normalised(query + extra), k) {
      GrowthSpells(hash, query, extra, k);
    }
    if Visible(query) <= hash(k) {
      assert Plain(hash(k));
      GoalPicks(hash, query, hash(k), k);
    } else if Visible(query) <= Fingerprint(hash, k) {
      FingerprintIsPlain(hash, k);
      GoalPicks(hash, query, Fingerprint(hash, k), k);
    }
  }

  lemma GrowthSpells(hash: Hash, query: string, extra: string, k: PubKey)
    requires !LongEnough(Normalised(query)) && Picks(hash, Normalised(query + extra), k)
    ensures Visible(query) <= hash(k) || Visible(query) <= Fingerprint(hash, k)
  {
    VisibleSurvives(query, extra);
    PickSpells(hash, query + extra, k);
  }

  lemma FingerprintIsPlain(hash: Hash, k: PubKey)
    requires IsDigest(hash(k))
    ensures Plain(Fingerprint(hash, k))
  {
    var fp := Fingerprint(hash, k);
    assert forall i :: 0 <= i < 6 ==> fp[i] == X25519[i] && PlainChar(X25519[i]);
    assert fp[6] == ':' && forall i :: 7 <= i < |fp| ==> fp[i] == hash(k)[i - 7];
  }

  lemma GoalPicks(hash: Hash, query: string, goal: string, k: PubKey)
    requires IsDigest(hash(k)) && (goal == hash(k) || goal == Fingerprint(hash, k)) && Plain(goal)
    requires Visible(query) <= goal
    ensures Picks(hash, Normalised(query + goal[|Visible(query)|..]), k)
  {
    Complete(query, goal);
    SpellingPicks(hash, query + goal[|Visible(query)|..], k);
  }
}
