// The labels the command line shows for the hops of a chain.
module HopLabels {
  import opened Prelude
  import opened Postcard
  import opened Text

  const HOP_LABEL_PUBKEY_PREFIX_HEX := 8

  datatype LabelledHop = LabelledHop(name: Option<string>, key: PubKey)

  // The text form of a key.
  function FullKey(k: PubKey): string { "x25519:" + Hex(k) }

  function ShortPubkey(k: PubKey): string {
    var full := FullKey(k);
    match Find(full, ':')
    case None => full
    case Some(i) => full[..i + 1] + full[i + 1..][..Min(|full[i + 1..]|, HOP_LABEL_PUBKEY_PREFIX_HEX)]
  }

  lemma ShortForm(k: PubKey)
    ensures ShortPubkey(k) == "x25519:" + Hex(k[..4])
    ensures ' ' !in ShortPubkey(k)
  {
    var full := FullKey(k);
    assert full[..6] == "x25519" && full[6] == ':' && full[7..] == Hex(k);
    FindIs(full, ':', 6);
    HexPrefix(k, 4);
    assert full[..7] == "x25519:";
    assert forall i :: 0 <= i < |Hex(k[..4])| ==> Hex(k[..4])[i] != ' ';
  }

  // Short forms tell keys apart exactly by their first four bytes.
  lemma ShortEqualIff(a: PubKey, b: PubKey)
    ensures ShortPubkey(a) == ShortPubkey(b) <==> a[..4] == b[..4]
  {
    ShortForm(a);
    ShortForm(b);
    if ShortPubkey(a) == ShortPubkey(b) {
      assert ("x25519:" + Hex(a[..4]))[7..] == Hex(a[..4]) && ("x25519:" + Hex(b[..4]))[7..] == Hex(b[..4]);
      HexInjective(a[..4], b[..4]);
    }
  }

  // An empty name counts as none.
  function NameOf(h: LabelledHop): Option<string> { if h.name == Some("") then None else h.name }

  function Uses(hops: seq<LabelledHop>, name: string): nat {
    if hops == [] then 0
    else Uses(hops[..|hops| - 1], name) + if NameOf(Last(hops)) == Some(name) then 1 else 0
  }

  function Label(hops: seq<LabelledHop>, h: LabelledHop): string {
    match NameOf(h)
    case None => ShortPubkey(h.key)
    case Some(name) => if Uses(hops, name) > 1 then name + " (" + ShortPubkey(h.key) + ")" else name
  }

  method Labels(hops: seq<LabelledHop>) returns (labels: seq<string>)
    ensures labels == seq(|hops|, i requires 0 <= i < |hops| => Label(hops, hops[i]))
  {
    var counts: map<string, nat> := map[];
    for i := 0 to |hops|
      invariant forall n :: (if n in counts then counts[n] else 0) == Uses(hops[..i], n)
    {
      assert hops[..i + 1][..i] == hops[..i];
      var name := NameOf(hops[i]);
      if name.Some? {
        counts := counts[name.value := (if name.value in counts then counts[name.value] else 0) + 1];
      }
    }
    assert hops[..|hops|] == hops;
    labels := [];
    for i := 0 to |hops|
      invariant labels == seq(i, j requires 0 <= j < i => Label(hops, hops[j]))
    {
      var h := hops[i];
      var name := NameOf(h);
      var text: string;
      if name.None? {
        text := ShortPubkey(h.key);
      } else if (if name.value in counts then counts[name.value] else 0) > 1 {
        text := name.value + " (" + ShortPubkey(h.key) + ")";
      } else {
        text := name.value;
      }
      labels := labels + [text];
    }
  }

  // ---- When labels are distinct ----

  // A name is counted twice exactly when two hops have it.
  lemma {:induction false} UsedOnce(hops: seq<LabelledHop>, name: string)
    ensures Uses(hops, name) > 0 <==> exists i :: 0 <= i < |hops| && NameOf(hops[i]) == Some(name)
    ensures Uses(hops, name) > 1
            <==> exists i, j :: 0 <= i < j < |hops| && NameOf(hops[i]) == Some(name) && NameOf(hops[j]) == Some(name)
    decreases |hops|
  {
    if hops != [] {
      var last := |hops| - 1;
      var before := hops[..last];
      UsedOnce(before, name);
      assert forall i :: 0 <= i < last ==> before[i] == hops[i];
      if Uses(hops, name) > 1 && NameOf(hops[last]) == Some(name) {
        var i :| 0 <= i < last && NameOf(before[i]) == Some(name);
        assert NameOf(hops[i]) == Some(name) && NameOf(hops[last]) == Some(name);
      }
    }
  }

  // In terms of the hops alone: a hop without a name goes by the first four
  // bytes of its key, one whose name another hop has too by both, and any
  // other by its name.
  lemma LabelIs(hops: seq<LabelledHop>, i: nat)
    requires i < |hops|
    ensures var name, short := hops[i].name, "x25519:" + Hex(hops[i].key[..4]);
            Label(hops, hops[i])
            == if name == None || name == Some("") then short
               else if exists j :: 0 <= j < |hops| && j != i && hops[j].name == name
               then name.value + " (" + short + ")"
               else name.value
  {
    ShortForm(hops[i].key);
    if NameOf(hops[i]).Some? {
      UsedOnce(hops, hops[i].name.value);
      if j :| 0 <= j < |hops| && j != i && hops[j].name == hops[i].name {
        assert NameOf(hops[j]) == NameOf(hops[i]);
      }
    }
  }

  lemma SuffixedEqual(a: string, b: string, s: string, t: string)
    requires ' ' !in a && ' ' !in b && a + " (" + s + ")" == b + " (" + t + ")"
    ensures a == b && s == t
  {
    var x, y := a + " (" + s + ")", b + " (" + t + ")";
    assert x[|a|] == ' ' && y[|b|] == ' ' && x[..|a|] == a && y[..|b|] == b;
    FindIs(x, ' ', |a|);
    FindIs(y, ' ', |b|);
    assert x[|a| + 2..|x| - 1] == s && y[|b| + 2..|y| - 1] == t;
  }

  ghost predicate NamesHaveNoSpace(hops: seq<LabelledHop>) {
    forall i :: 0 <= i < |hops| && NameOf(hops[i]).Some? ==> ' ' !in NameOf(hops[i]).value
  }

  // Hops i and j cannot be told apart: same name, or none, and the same short
  // key; or one is known only by a short key that is the other's unshared name.
  ghost predicate Clash(hops: seq<LabelledHop>, g: LabelledHop, h: LabelledHop) {
    || (NameOf(g) == NameOf(h) && ShortPubkey(g.key) == ShortPubkey(h.key))
    || (NameOf(h).None? && NameOf(g) == Some(ShortPubkey(h.key)) && Uses(hops, NameOf(g).value) <= 1)
    || (NameOf(g).None? && NameOf(h) == Some(ShortPubkey(g.key)) && Uses(hops, NameOf(h).value) <= 1)
  }

  lemma LabelsEqualIff(hops: seq<LabelledHop>, i: nat, j: nat)
    requires i < j < |hops| && NamesHaveNoSpace(hops)
    ensures Label(hops, hops[i]) == Label(hops, hops[j]) <==> Clash(hops, hops[i], hops[j])
  {
    var g, h := hops[i], hops[j];
    if NameOf(g).Some? && NameOf(h).Some? {
      BothNamed(hops, i, j);
    } else if NameOf(g).None? {
      OneUnnamed(hops, g, h);
    } else {
      OneUnnamed(hops, h, g);
    }
  }

  lemma Suffixed(name: string, s: string)
    ensures ' ' in name + " (" + s + ")"
  {
    assert (name + " (" + s + ")")[|name|] == ' ';
  }

  lemma BothNamed(hops: seq<LabelledHop>, i: nat, j: nat)
    requires i < j < |hops| && NamesHaveNoSpace(hops) && NameOf(hops[i]).Some? && NameOf(hops[j]).Some?
    ensures Label(hops, hops[i]) == Label(hops, hops[j]) <==> Clash(hops, hops[i], hops[j])
  {
    var m, n := NameOf(hops[i]).value, NameOf(hops[j]).value;
    var s, t := ShortPubkey(hops[i].key), ShortPubkey(hops[j].key);
    UsedOnce(hops, m);
    Suffixed(m, s);
    Suffixed(n, t);
    if m + " (" + s + ")" == n + " (" + t + ")" { SuffixedEqual(m, n, s, t); }
  }

  lemma OneUnnamed(hops: seq<LabelledHop>, g: LabelledHop, h: LabelledHop)
    requires NameOf(g).None?
    ensures Label(hops, g) == Label(hops, h) <==> Clash(hops, g, h)
  {
    ShortForm(g.key);
    if NameOf(h).Some? { Suffixed(NameOf(h).value, ShortPubkey(h.key)); }
  }

  // Labels are pairwise distinct exactly when no two hops clash.
  lemma LabelsDistinctIff(hops: seq<LabelledHop>)
    requires NamesHaveNoSpace(hops)
    ensures (forall i, j :: 0 <= i < j < |hops| ==> Label(hops, hops[i]) != Label(hops, hops[j]))
            <==> (forall i, j :: 0 <= i < j < |hops| ==> !Clash(hops, hops[i], hops[j]))
  {
    forall i, j | 0 <= i < j < |hops|
      ensures Label(hops, hops[i]) == Label(hops, hops[j]) <==> Clash(hops, hops[i], hops[j])
    {
      LabelsEqualIff(hops, i, j);
    }
  }

  // In particular they are when short keys differ and no name is another hop's short key.
  lemma DistinctKeysGiveDistinctLabels(hops: seq<LabelledHop>)
    requires NamesHaveNoSpace(hops)
    requires forall i, j :: 0 <= i < j < |hops| ==> ShortPubkey(hops[i].key) != ShortPubkey(hops[j].key)
    requires forall i, j :: 0 <= i < |hops| && 0 <= j < |hops| && i != j ==>
               NameOf(hops[i]) != Some(ShortPubkey(hops[j].key))
    ensures forall i, j :: 0 <= i < j < |hops| ==> Label(hops, hops[i]) != Label(hops, hops[j])
  {
    LabelsDistinctIff(hops);
  }
}
