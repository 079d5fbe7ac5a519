// The recursive walk up the chain: `chain summary` and `chain canary` ask the
// next node up, which asks the next, until the top, a limit or a failure.
module ChainWalk {
  import opened Prelude

  const FORWARDING_OVERHEAD_MS := 250

  // What a handler says when it cannot go on.
  datatype Texts = Texts(noIntrospection: string, depthExhausted: string, deadlineExhausted: string, oversize: string)

  const CHAIN_HOP_TEXTS := Texts(
    "local introspection unavailable", "depth budget exhausted", "deadline exhausted before upstream forward",
    "reply exceeded 16384 bytes; truncated to local hop")
  const CANARY_TEXTS := CHAIN_HOP_TEXTS.(oversize := "reply exceeded 4096 bytes; truncated to local hop")

  datatype Mode = Gateway | Relay | Terminal

  function ModeTag(m: Mode): Byte {
    match m
    case Gateway => 0
    case Relay => 1
    case Terminal => 2
  }

  // `info` is what a node says about itself; the walk only moves it.
  datatype Hop<T> = Hop(info: T, index: U32, rtt: Option<U64>)
  datatype Reply<T> = Reply(hops: seq<Hop<T>>, partial: bool, error: Option<string>)

  // One request over one link: a reply with the measured round trip, or the
  // text the parent reports.
  datatype Outcome = Delivered(rtt: U64) | Undelivered(reason: string)

  // Everything the walk depends on. Node ids are arbitrary and `upstream` may
  // be cyclic; what a node reports, how a link behaves and how long a reply
  // encodes may all differ with the depth at which the walk gets there.
  datatype World<!T> = World(
    upstream: nat -> Option<nat>, info: (nat, nat) -> Option<T>, link: nat -> Outcome,
    size: (nat, Reply<T>) -> nat, cap: nat, texts: Texts)

  // The node `k` links above `id`, if there is one.
  function Above<T>(w: World<T>, id: nat, k: nat): Option<nat>
    decreases k
  {
    if k == 0 then Some(id)
    else match w.upstream(id) case None => None case Some(up) => Above(w, up, k - 1)
  }

  lemma {:induction false} AboveIsClosed<T>(w: World<T>, id: nat, k: nat, n: nat)
    requires k <= n && Above(w, id, n).Some?
    ensures Above(w, id, k).Some?
    decreases n
  {
    if k > 0 { AboveIsClosed(w, w.upstream(id).value, k - 1, n - 1); }
  }

  // The number a hop at position k ends up with.
  function NumberAt(k: nat): U32 { if k == 0 then 0 else (2 * k - 1) % 0x1_0000_0000 }

  // The hop at `offset` of an upstream reply, as the node below passes it on.
  function Restamped<T>(hop: Hop<T>, offset: nat, rtt: U64): Hop<T> {
    Hop(hop.info, NumberAt(offset + 1), if offset == 0 then Some(rtt) else hop.rtt)
  }

  // A node's own hop followed by its upstream's hops as they are restamped.
  function Joined<T>(local: Hop<T>, hops: seq<Hop<T>>, rtt: U64): seq<Hop<T>> {
    [local] + seq(|hops|, k requires 0 <= k < |hops| => Restamped(hops[k], k, rtt))
  }

  // The restamping loop. `hops.len()` already counts the hops pushed so far,
  // and the offset is added on top.
  method JoinUpstream<T>(local: Hop<T>, upstream: seq<Hop<T>>, rtt: U64) returns (hops: seq<Hop<T>>)
    ensures hops == Joined(local, upstream, rtt)
  {
    hops := [local];
    var offset := 0;
    while offset < |upstream|
      invariant 0 <= offset <= |upstream| && hops == Joined(local, upstream, rtt)[..offset + 1]
    {
      var hop := upstream[offset];
      hop := hop.(index := (|hops| + offset) % 0x1_0000_0000);
      if offset == 0 { hop := hop.(rtt := Some(rtt)); }
      hops := hops + [hop];
      offset := offset + 1;
    }
  }

  // An oversize reply is cut to the local hop; the result is not measured again.
  function Capped<T>(w: World<T>, depth: nat, r: Reply<T>): Reply<T> {
    if w.size(depth, r) <= w.cap then r
    else Reply(if r.hops == [] then [] else r.hops[..1], true, Some(w.texts.oversize))
  }

  // The reply of node `id`, `depth` links above the first responder.
  function Walk<T>(w: World<T>, id: nat, depth: nat, budget: U32, deadline: U32): Reply<T>
    decreases budget, 1
  {
    if w.info(id, depth).None? then Reply([], true, Some(w.texts.noIntrospection))
    else Capped(w, depth, Assembled(w, id, depth, budget, deadline))
  }

  function Assembled<T>(w: World<T>, id: nat, depth: nat, budget: U32, deadline: U32): Reply<T>
    requires w.info(id, depth).Some?
    decreases budget, 0
  {
    var local := Hop(w.info(id, depth).value, 0, None);
    if w.upstream(id).None? then Reply([local], false, None)
    else if budget <= 1 then Reply([local], true, Some(w.texts.depthExhausted))
    else if deadline <= FORWARDING_OVERHEAD_MS then Reply([local], true, Some(w.texts.deadlineExhausted))
    else
      match w.link(depth)
      case Undelivered(reason) => Reply([local], true, Some(reason))
      case Delivered(rtt) =>
        var up := Walk(w, w.upstream(id).value, depth + 1, budget - 1, deadline - FORWARDING_OVERHEAD_MS);
        Reply(Joined(local, up.hops, rtt), up.partial, up.error)
  }

  // The chain-summary handler: an upstream error is passed on whenever there is one.
  method HandleChainHopQuery<T>(w: World<T>, id: nat, depth: nat, budget: U32, deadline: U32)
    returns (reply: Reply<T>)
    ensures reply == Walk(w, id, depth, budget, deadline)
    decreases budget
  {
    var info := w.info(id, depth);
    if info.None? { return Reply([], true, Some(w.texts.noIntrospection)); }
    var depthBudget := SaturatingSub(budget, 1);
    var upstreamDeadline := SaturatingSub(deadline, FORWARDING_OVERHEAD_MS);
    var hops := [Hop(info.value, 0, None)];
    var partial, error := false, None;
    var upstream := w.upstream(id);
    if upstream.Some? {
      if depthBudget > 0 && upstreamDeadline > 0 {
        match w.link(depth) {
          case Delivered(rtt) =>
            var up := HandleChainHopQuery(w, upstream.value, depth + 1, depthBudget, upstreamDeadline);
            hops := JoinUpstream(hops[0], up.hops, rtt);
            partial := partial || up.partial;
            if up.error.Some? { error := up.error; }
          case Undelivered(reason) =>
            partial, error := true, Some(reason);
        }
      } else if depthBudget == 0 {
        partial, error := true, Some(w.texts.depthExhausted);
      } else {
        partial, error := true, Some(w.texts.deadlineExhausted);
      }
    }
    reply := Reply(hops, partial, error);
    if w.size(depth, reply) > w.cap {
      reply := Reply(reply.hops[..1], true, Some(w.texts.oversize));
    }
  }

  // The canary handler: an upstream error is passed on only with a partial reply.
  method HandleCanaryArm<T>(w: World<T>, id: nat, depth: nat, budget: U32, deadline: U32)
    returns (reply: Reply<T>)
    ensures reply == Walk(w, id, depth, budget, deadline)
    decreases budget
  {
    var info := w.info(id, depth);
    if info.None? { return Reply([], true, Some(w.texts.noIntrospection)); }
    var depthBudget := SaturatingSub(budget, 1);
    var upstreamDeadline := SaturatingSub(deadline, FORWARDING_OVERHEAD_MS);
    var hops := [Hop(info.value, 0, None)];
    var partial, error := false, None;
    var upstream := w.upstream(id);
    if upstream.Some? {
      if depthBudget > 0 && upstreamDeadline > 0 {
        match w.link(depth) {
          case Delivered(rtt) =>
            var up := HandleCanaryArm(w, upstream.value, depth + 1, depthBudget, upstreamDeadline);
            PartialMeansError(w, upstream.value, depth + 1, depthBudget, upstreamDeadline);
            hops := JoinUpstream(hops[0], up.hops, rtt);
            if up.partial { partial, error := true, up.error; }
          case Undelivered(reason) =>
            partial, error := true, Some(reason);
        }
      } else if depthBudget == 0 {
        partial, error := true, Some(w.texts.depthExhausted);
      } else {
        partial, error := true, Some(w.texts.deadlineExhausted);
      }
    }
    reply := Reply(hops, partial, error);
    if w.size(depth, reply) > w.cap {
      reply := Reply(reply.hops[..1], true, Some(w.texts.oversize));
    }
  }

  // A reply is flagged partial exactly when it says why.
  lemma {:induction false} PartialMeansError<T>(w: World<T>, id: nat, depth: nat, budget: U32, deadline: U32)
    ensures var r := Walk(w, id, depth, budget, deadline); r.partial <==> r.error.Some?
    decreases budget
  {
    if w.upstream(id).Some? && budget > 1 && deadline > FORWARDING_OVERHEAD_MS {
      PartialMeansError(w, w.upstream(id).value, depth + 1, budget - 1, deadline - FORWARDING_OVERHEAD_MS);
    }
  }

  // The hop a reply of node `id` carries at position k, in closed form: the
  // node k links up, numbered 2k - 1, timed by the node below it.
  ghost predicate IsHopAt<T>(w: World<T>, id: nat, depth: nat, k: nat, hop: Hop<T>) {
    && Above(w, id, k).Some? && w.info(Above(w, id, k).value, depth + k) == Some(hop.info)
    && hop.index == NumberAt(k)
    && (if k == 0 then hop.rtt == None
        else w.link(depth + k - 1).Delivered? && hop.rtt == Some(w.link(depth + k - 1).rtt))
  }

  // In order a contiguous prefix of the upstream path, each hop with its
  // closed-form number and round trip.
  ghost predicate FollowsPath<T>(w: World<T>, id: nat, depth: nat, hops: seq<Hop<T>>) {
    forall k :: 0 <= k < |hops| ==> IsHopAt(w, id, depth, k, hops[k])
  }

  lemma HopAbove<T>(w: World<T>, id: nat, depth: nat, k: nat, hop: Hop<T>)
    requires w.upstream(id).Some? && w.link(depth).Delivered? && IsHopAt(w, w.upstream(id).value, depth + 1, k, hop)
    ensures IsHopAt(w, id, depth, k + 1, Restamped(hop, k, w.link(depth).rtt))
  {
    assert Above(w, id, k + 1) == Above(w, w.upstream(id).value, k);
  }

  lemma JoinedFollows<T>(w: World<T>, id: nat, depth: nat, hops: seq<Hop<T>>)
    requires w.info(id, depth).Some? && w.upstream(id).Some? && w.link(depth).Delivered?
    requires FollowsPath(w, w.upstream(id).value, depth + 1, hops)
    ensures FollowsPath(w, id, depth, Joined(Hop(w.info(id, depth).value, 0, None), hops, w.link(depth).rtt))
  {
    var all := Joined(Hop(w.info(id, depth).value, 0, None), hops, w.link(depth).rtt);
    forall k | 0 <= k < |all|
      ensures IsHopAt(w, id, depth, k, all[k])
    {
      if k > 0 { HopAbove(w, id, depth, k - 1, hops[k - 1]); }
    }
  }

  // Whatever fails, times out or is cut, and cycles included.
  lemma {:induction false} WalkFollowsPath<T>(w: World<T>, id: nat, depth: nat, budget: U32, deadline: U32)
    ensures FollowsPath(w, id, depth, Walk(w, id, depth, budget, deadline).hops)
    ensures w.info(id, depth).Some? ==> FollowsPath(w, id, depth, Assembled(w, id, depth, budget, deadline).hops)
    decreases budget
  {
    if w.info(id, depth).Some? && w.upstream(id).Some? && budget > 1 && deadline > FORWARDING_OVERHEAD_MS {
      if w.link(depth).Delivered? {
        var up := Walk(w, w.upstream(id).value, depth + 1, budget - 1, deadline - FORWARDING_OVERHEAD_MS);
        WalkFollowsPath(w, w.upstream(id).value, depth + 1, budget - 1, deadline - FORWARDING_OVERHEAD_MS);
        JoinedFollows(w, id, depth, up.hops);
      }
    }
  }

  // How many forwards the deadline pays for, plus the responder itself.
  function DeadlineHops(deadline: nat): nat { (deadline + FORWARDING_OVERHEAD_MS - 1) / FORWARDING_OVERHEAD_MS }

  function HopLimit(budget: nat, deadline: nat): nat { Max(1, Min(budget, DeadlineHops(deadline))) }

  lemma HopLimitStep(budget: nat, deadline: nat)
    requires budget > 1 && deadline > FORWARDING_OVERHEAD_MS
    ensures HopLimit(budget, deadline) == 1 + HopLimit(budget - 1, deadline - FORWARDING_OVERHEAD_MS)
  {
  }

  // How many nodes a walk asks, answers that get lost or cut included.
  function Visits<T>(w: World<T>, id: nat, depth: nat, budget: U32, deadline: U32): nat
    decreases budget
  {
    if w.info(id, depth).None? || w.upstream(id).None? || budget <= 1 || deadline <= FORWARDING_OVERHEAD_MS then 1
    else 1 + Visits(w, w.upstream(id).value, depth + 1, budget - 1, deadline - FORWARDING_OVERHEAD_MS)
  }

  lemma {:induction false} WalkIsBounded<T>(w: World<T>, id: nat, depth: nat, budget: U32, deadline: U32)
    ensures |Walk(w, id, depth, budget, deadline).hops| <= Visits(w, id, depth, budget, deadline)
    ensures Visits(w, id, depth, budget, deadline) <= HopLimit(budget, deadline)
    decreases budget
  {
    if w.upstream(id).Some? && budget > 1 && deadline > FORWARDING_OVERHEAD_MS {
      HopLimitStep(budget, deadline);
      WalkIsBounded(w, w.upstream(id).value, depth + 1, budget - 1, deadline - FORWARDING_OVERHEAD_MS);
    }
  }

  // Nothing on the way of this walk stops it but its limits and the top: every
  // node it asks answers within the cap, over links that deliver.
  ghost predicate Clear<T>(w: World<T>, id: nat, depth: nat, budget: U32, deadline: U32)
    decreases budget
  {
    && w.info(id, depth).Some? && w.size(depth, Assembled(w, id, depth, budget, deadline)) <= w.cap
    && (w.upstream(id).Some? && budget > 1 && deadline > FORWARDING_OVERHEAD_MS
        ==> && w.link(depth).Delivered?
            && Clear(w, w.upstream(id).value, depth + 1, budget - 1, deadline - FORWARDING_OVERHEAD_MS))
  }

  // Then the bound is met: the walk ends at the limit or at the top, whichever
  // comes first, and is partial exactly when the top is out of reach.
  lemma {:induction false} ClearWalk<T>(w: World<T>, id: nat, depth: nat, budget: U32, deadline: U32)
    requires Clear(w, id, depth, budget, deadline)
    ensures var r := Walk(w, id, depth, budget, deadline); var n := |r.hops|;
            && 1 <= n <= HopLimit(budget, deadline) && Above(w, id, n - 1).Some?
            && (n < HopLimit(budget, deadline) ==> Above(w, id, n).None?)
            && (r.partial <==> Above(w, id, n).Some?)
    decreases budget
  {
    if w.upstream(id).Some? && budget > 1 && deadline > FORWARDING_OVERHEAD_MS {
      HopLimitStep(budget, deadline);
      ClearWalk(w, w.upstream(id).value, depth + 1, budget - 1, deadline - FORWARDING_OVERHEAD_MS);
    } else {
      assert Above(w, id, 1).None? <==> w.upstream(id).None?;
    }
  }

  // Every node answers and every link delivers.
  ghost predicate Healthy<T>(w: World<T>) {
    (forall id, depth :: w.info(id, depth).Some?) && (forall depth :: w.link(depth).Delivered?)
  }

  // The limits or the path allow for at most `n` hops.
  predicate Within<T>(w: World<T>, id: nat, budget: U32, deadline: U32, n: nat) {
    HopLimit(budget, deadline) <= n || Above(w, id, n).None?
  }

  // Replies of walks of at most `n` hops fit.
  ghost predicate ShortRepliesFit<T>(w: World<T>, n: nat)
    requires Healthy(w)
  {
    forall id, depth, budget: U32, deadline: U32 :: Within(w, id, budget, deadline, n)
      ==> w.size(depth, Assembled(w, id, depth, budget, deadline)) <= w.cap
  }

  lemma WithinStep<T>(w: World<T>, id: nat, budget: U32, deadline: U32, n: nat)
    requires Within(w, id, budget, deadline, n)
    requires w.upstream(id).Some? && budget > 1 && deadline > FORWARDING_OVERHEAD_MS
    ensures Within(w, w.upstream(id).value, budget - 1, deadline - FORWARDING_OVERHEAD_MS, n)
  {
    var up := w.upstream(id).value;
    HopLimitStep(budget, deadline);
    if Above(w, up, n).Some? { AboveIsClosed(w, up, SaturatingSub(n, 1), n); }
  }

  // A healthy world is clear as far as its replies fit.
  lemma {:induction false} HealthyIsClear<T>(
    w: World<T>, id: nat, depth: nat, budget: U32, deadline: U32, n: nat)
    requires Healthy(w) && ShortRepliesFit(w, n) && Within(w, id, budget, deadline, n)
    ensures Clear(w, id, depth, budget, deadline)
    decreases budget
  {
    if w.upstream(id).Some? && budget > 1 && deadline > FORWARDING_OVERHEAD_MS {
      WithinStep(w, id, budget, deadline, n);
      HealthyIsClear(w, w.upstream(id).value, depth + 1, budget - 1, deadline - FORWARDING_OVERHEAD_MS, n);
    }
  }

  lemma NumbersArePositionsIff<T>(hops: seq<Hop<T>>)
    requires |hops| < 0x8000_0000 && forall k :: 0 <= k < |hops| ==> hops[k].index == NumberAt(k)
    ensures forall k :: 0 <= k < |hops| ==> hops[k].index == if k == 0 then 0 else 2 * k - 1
    ensures (forall k :: 0 <= k < |hops| ==> hops[k].index == k) <==> |hops| <= 2
  {
    assert |hops| > 2 ==> hops[2].index == 3;
  }

  // The documented numbering, position by position, holds exactly for replies
  // of at most two hops. The 32-bit cast never loses anything.
  lemma IndexIsPositionIff<T>(w: World<T>, id: nat, depth: nat, budget: U32, deadline: U32)
    ensures var hops := Walk(w, id, depth, budget, deadline).hops;
            && (forall k :: 0 <= k < |hops| ==> hops[k].index == if k == 0 then 0 else 2 * k - 1)
            && ((forall k :: 0 <= k < |hops| ==> hops[k].index == k) <==> |hops| <= 2)
  {
    var hops := Walk(w, id, depth, budget, deadline).hops;
    WalkIsBounded(w, id, depth, budget, deadline);
    WalkFollowsPath(w, id, depth, budget, deadline);
    assert forall k :: 0 <= k < |hops| ==> IsHopAt(w, id, depth, k, hops[k]);
    NumbersArePositionsIff(hops);
  }

  // Before asking: numbers are positions whenever limits or path allow for at
  // most two hops ...
  lemma ShortWalkNumbersPositions<T>(w: World<T>, id: nat, depth: nat, budget: U32, deadline: U32)
    requires Within(w, id, budget, deadline, 2)
    ensures var hops := Walk(w, id, depth, budget, deadline).hops;
            forall k :: 0 <= k < |hops| ==> hops[k].index == k
  {
    var hops := Walk(w, id, depth, budget, deadline).hops;
    IndexIsPositionIff(w, id, depth, budget, deadline);
    WalkIsBounded(w, id, depth, budget, deadline);
    WalkFollowsPath(w, id, depth, budget, deadline);
    assert |hops| > 2 ==> IsHopAt(w, id, depth, 2, hops[2]);
  }

  // ... and, where nothing on the way fails, only then.
  lemma ClearNumbersPositionsIff<T>(w: World<T>, id: nat, depth: nat, budget: U32, deadline: U32)
    requires Clear(w, id, depth, budget, deadline)
    ensures var hops := Walk(w, id, depth, budget, deadline).hops;
            (forall k :: 0 <= k < |hops| ==> hops[k].index == k) <==> Within(w, id, budget, deadline, 2)
  {
    var n := |Walk(w, id, depth, budget, deadline).hops|;
    IndexIsPositionIff(w, id, depth, budget, deadline);
    ClearWalk(w, id, depth, budget, deadline);
    if Above(w, id, 2).Some? && n <= 2 { AboveIsClosed(w, id, n, 2); }
    if n > 2 { AboveIsClosed(w, id, 2, n - 1); }
  }

  // On a path without a top the asker's limits decide.
  lemma EndlessWalk<T>(w: World<T>, id: nat, depth: nat, budget: U32, deadline: U32)
    requires Clear(w, id, depth, budget, deadline) && forall i :: w.upstream(i).Some?
    ensures |Walk(w, id, depth, budget, deadline).hops| == HopLimit(budget, deadline)
  {
    ClearWalk(w, id, depth, budget, deadline);
    EndlessAbove(w, id, |Walk(w, id, depth, budget, deadline).hops|);
  }

  lemma {:induction false} EndlessAbove<T>(w: World<T>, id: nat, k: nat)
    requires forall i :: w.upstream(i).Some?
    ensures Above(w, id, k).Some?
    decreases k
  {
    if k > 0 { EndlessAbove(w, w.upstream(id).value, k - 1); }
  }

  // A reply says nothing but what the nodes report and the links and limits explain.
  lemma {:induction false} ErrorsSatisfy<T>(
    w: World<T>, ok: string -> bool, id: nat, depth: nat, budget: U32, deadline: U32)
    requires ok(w.texts.noIntrospection) && ok(w.texts.depthExhausted)
    requires ok(w.texts.deadlineExhausted) && ok(w.texts.oversize)
    requires forall d :: w.link(d).Undelivered? ==> ok(w.link(d).reason)
    ensures var r := Walk(w, id, depth, budget, deadline); r.error.Some? ==> ok(r.error.value)
    ensures w.info(id, depth).Some?
            ==> var r := Assembled(w, id, depth, budget, deadline); r.error.Some? ==> ok(r.error.value)
    decreases budget
  {
    if w.upstream(id).Some? && budget > 1 && deadline > FORWARDING_OVERHEAD_MS {
      ErrorsSatisfy(w, ok, w.upstream(id).value, depth + 1, budget - 1, deadline - FORWARDING_OVERHEAD_MS);
    }
  }

  // The hops a node assembles, before it measures them.
  lemma AssembledIsBounded<T>(w: World<T>, id: nat, depth: nat, budget: U32, deadline: U32)
    requires w.info(id, depth).Some?
    ensures |Assembled(w, id, depth, budget, deadline).hops| <= HopLimit(budget, deadline)
  {
    if w.upstream(id).Some? && budget > 1 && deadline > FORWARDING_OVERHEAD_MS {
      HopLimitStep(budget, deadline);
      WalkIsBounded(w, w.upstream(id).value, depth + 1, budget - 1, deadline - FORWARDING_OVERHEAD_MS);
    }
  }

  lemma AssembledHops<T>(w: World<T>, id: nat, depth: nat, budget: U32, deadline: U32, n: nat)
    requires w.info(id, depth).Some? && Within(w, id, budget, deadline, n)
    ensures var hops := Assembled(w, id, depth, budget, deadline).hops;
            |hops| <= n && FollowsPath(w, id, depth, hops)
  {
    AssembledIsBounded(w, id, depth, budget, deadline);
    WalkFollowsPath(w, id, depth, budget, deadline);
    PathEnds(w, id, depth, Assembled(w, id, depth, budget, deadline).hops, n);
  }

  lemma PathEnds<T>(w: World<T>, id: nat, depth: nat, hops: seq<Hop<T>>, n: nat)
    requires FollowsPath(w, id, depth, hops)
    ensures Above(w, id, n).None? ==> |hops| <= n
  {
    if |hops| > n { assert IsHopAt(w, id, depth, n, hops[n]); }
  }

  // The whole path from `id` to a top `h` links above it, as one complete reply.
  function HopAt<T>(w: World<T>, id: nat, depth: nat, k: nat): Hop<T>
    requires Above(w, id, k).Some? && w.info(Above(w, id, k).value, depth + k).Some?
    requires k > 0 ==> w.link(depth + k - 1).Delivered?
  {
    Hop(w.info(Above(w, id, k).value, depth + k).value, NumberAt(k),
        if k == 0 then None else Some(w.link(depth + k - 1).rtt))
  }

  // Every node up to `h` links above `id` answers over links that deliver.
  ghost predicate Answering<T>(w: World<T>, id: nat, depth: nat, h: nat)
    decreases h
  {
    && w.info(id, depth).Some?
    && (h > 0 ==> w.link(depth).Delivered? && w.upstream(id).Some?
                  && Answering(w, w.upstream(id).value, depth + 1, h - 1))
  }

  lemma {:induction false} AnsweringAt<T>(w: World<T>, id: nat, depth: nat, h: nat, k: nat)
    requires Answering(w, id, depth, h) && k <= h
    ensures Above(w, id, k).Some? && w.info(Above(w, id, k).value, depth + k).Some?
    ensures k > 0 ==> w.link(depth + k - 1).Delivered?
    decreases h
  {
    if k > 0 { AnsweringAt(w, w.upstream(id).value, depth + 1, h - 1, k - 1); }
  }

  ghost function Whole<T>(w: World<T>, id: nat, depth: nat, h: nat): Reply<T>
    requires Answering(w, id, depth, h)
  {
    Reply(
      seq(h + 1, k requires 0 <= k <= h => AnsweringAt(w, id, depth, h, k); HopAt(w, id, depth, k)), false, None)
  }

  // Every node on the way to `h` links up can fit the complete reply it owes.
  ghost predicate Fitting<T>(w: World<T>, id: nat, depth: nat, h: nat)
    requires Answering(w, id, depth, h)
    decreases h
  {
    && w.size(depth, Whole(w, id, depth, h)) <= w.cap
    && (h > 0 ==> Fitting(w, w.upstream(id).value, depth + 1, h - 1))
  }

  // What a complete walk needs: a top h links up, limits that reach it, and
  // every node on the way answering within the cap.
  ghost predicate ReachesTop<T>(w: World<T>, id: nat, depth: nat, budget: nat, deadline: nat, h: nat) {
    && Answering(w, id, depth, h) && Above(w, id, h + 1).None? && Fitting(w, id, depth, h)
    && (h > 0 ==> budget > h && deadline > FORWARDING_OVERHEAD_MS * h)
  }

  lemma WholeStep<T>(w: World<T>, id: nat, depth: nat, h: nat)
    requires h > 0 && Answering(w, id, depth, h)
    ensures Whole(w, id, depth, h).hops
            == Joined(Hop(w.info(id, depth).value, 0, None),
                      Whole(w, w.upstream(id).value, depth + 1, h - 1).hops, w.link(depth).rtt)
  {
  }

  // Such a walk returns the whole path ...
  lemma {:induction false} ReachingIsComplete<T>(
    w: World<T>, id: nat, depth: nat, budget: U32, deadline: U32, h: nat)
    requires ReachesTop(w, id, depth, budget, deadline, h)
    ensures Walk(w, id, depth, budget, deadline) == Whole(w, id, depth, h)
    decreases budget
  {
    if h == 0 {
      assert Above(w, id, 1).None?;
      assert Whole(w, id, depth, 0).hops == [Hop(w.info(id, depth).value, 0, None)];
    } else {
      var up := w.upstream(id).value;
      ReachingIsComplete(w, up, depth + 1, budget - 1, deadline - FORWARDING_OVERHEAD_MS, h - 1);
      WholeStep(w, id, depth, h);
    }
  }

  // ... and no other walk is complete.
  lemma {:induction false} CompleteReaches<T>(
    w: World<T>, id: nat, depth: nat, budget: U32, deadline: U32) returns (h: nat)
    requires !Walk(w, id, depth, budget, deadline).partial
    ensures ReachesTop(w, id, depth, budget, deadline, h)
    ensures |Walk(w, id, depth, budget, deadline).hops| == h + 1
    decreases budget
  {
    if w.upstream(id).None? {
      h := 0;
      assert Above(w, id, 1).None?;
      assert Whole(w, id, depth, 0).hops == [Hop(w.info(id, depth).value, 0, None)];
    } else {
      var up := w.upstream(id).value;
      var rest := CompleteReaches(w, up, depth + 1, budget - 1, deadline - FORWARDING_OVERHEAD_MS);
      ReachingIsComplete(w, up, depth + 1, budget - 1, deadline - FORWARDING_OVERHEAD_MS, rest);
      h := rest + 1;
      WholeStep(w, id, depth, h);
      PartialMeansError(w, up, depth + 1, budget - 1, deadline - FORWARDING_OVERHEAD_MS);
    }
  }

  // A reply is complete exactly when the top was within reach.
  lemma CompleteIff<T>(w: World<T>, id: nat, depth: nat, budget: U32, deadline: U32)
    ensures !Walk(w, id, depth, budget, deadline).partial
            <==> exists h: nat :: ReachesTop(w, id, depth, budget, deadline, h)
  {
    if !Walk(w, id, depth, budget, deadline).partial {
      var h := CompleteReaches(w, id, depth, budget, deadline);
    }
    if h: nat :| ReachesTop(w, id, depth, budget, deadline, h) {
      ReachingIsComplete(w, id, depth, budget, deadline, h);
    }
  }

  // ---- Every walk, whatever stops it ----

  // Why a walk goes no further than it does.
  datatype Why = AtTop | DepthSpent | DeadlineSpent | LinkFailed(text: string) | AboveSilent | CutHere

  // What the reply says about it.
  function TextFor(t: Texts, why: Why): Option<string> {
    match why
    case AtTop => None
    case DepthSpent => Some(t.depthExhausted)
    case DeadlineSpent => Some(t.deadlineExhausted)
    case LinkFailed(text) => Some(text)
    case AboveSilent => Some(t.noIntrospection)
    case CutHere => Some(t.oversize)
  }

  // Node `id` asks no further, or asks in vain.
  ghost predicate EndsHere<T>(w: World<T>, id: nat, depth: nat, budget: nat, deadline: nat, why: Why) {
    match why
    case AtTop => w.upstream(id).None?
    case DepthSpent => w.upstream(id).Some? && budget <= 1
    case DeadlineSpent => w.upstream(id).Some? && budget > 1 && deadline <= FORWARDING_OVERHEAD_MS
    case LinkFailed(text) => Forwards(w, id, budget, deadline) && w.link(depth) == Undelivered(text)
    case AboveSilent =>
      Forwards(w, id, budget, deadline) && w.link(depth).Delivered? && w.info(w.upstream(id).value, depth + 1).None?
    case CutHere => false
  }

  predicate Forwards<T>(w: World<T>, id: nat, budget: nat, deadline: nat) {
    w.upstream(id).Some? && budget > 1 && deadline > FORWARDING_OVERHEAD_MS
  }

  // The hops of the nodes up to `h` links above `id`, and why there are no more.
  ghost function Stopped<T>(w: World<T>, id: nat, depth: nat, h: nat, why: Why): Reply<T>
    requires Answering(w, id, depth, h)
  {
    Reply(Whole(w, id, depth, h).hops, why != AtTop, TextFor(w.texts, why))
  }

  // Node `id` gathers the hops up to `h` links above it, for this reason ...
  ghost predicate Gathers<T>(w: World<T>, id: nat, depth: nat, budget: U32, deadline: U32, h: nat, why: Why)
    decreases budget, 0
  {
    && Answering(w, id, depth, h)
    && if h == 0 then EndsHere(w, id, depth, budget, deadline, why)
       else
         && Forwards(w, id, budget, deadline)
         && Stops(w, w.upstream(id).value, depth + 1, budget - 1, deadline - FORWARDING_OVERHEAD_MS, h - 1, why)
  }

  // ... and passes them on if they fit, or itself alone if they do not.
  ghost predicate Stops<T>(w: World<T>, id: nat, depth: nat, budget: U32, deadline: U32, h: nat, why: Why)
    decreases budget, 2
  {
    || (Gathers(w, id, depth, budget, deadline, h, why) && w.size(depth, Stopped(w, id, depth, h, why)) <= w.cap)
    || (h == 0 && why == CutHere && exists n: nat, y: Why :: Overflows(w, id, depth, budget, deadline, n, y))
  }

  ghost predicate Overflows<T>(w: World<T>, id: nat, depth: nat, budget: U32, deadline: U32, n: nat, y: Why)
    decreases budget, 1
  {
    Gathers(w, id, depth, budget, deadline, n, y) && w.size(depth, Stopped(w, id, depth, n, y)) > w.cap
  }

  lemma StoppedStep<T>(w: World<T>, id: nat, depth: nat, h: nat, why: Why)
    requires h > 0 && Answering(w, id, depth, h)
    ensures Stopped(w, id, depth, h, why)
            == var up := Stopped(w, w.upstream(id).value, depth + 1, h - 1, why);
               Reply(Joined(Hop(w.info(id, depth).value, 0, None), up.hops, w.link(depth).rtt), up.partial, up.error)
  {
    WholeStep(w, id, depth, h);
  }

  lemma StoppedHere<T>(w: World<T>, id: nat, depth: nat, why: Why)
    requires Answering(w, id, depth, 0)
    ensures Stopped(w, id, depth, 0, why)
            == Reply([Hop(w.info(id, depth).value, 0, None)], why != AtTop, TextFor(w.texts, why))
  {
    assert Whole(w, id, depth, 0).hops == [Hop(w.info(id, depth).value, 0, None)];
  }

  // What a node gathers is what it assembles ...
  lemma {:induction false} GatheredIsAssembled<T>(
    w: World<T>, id: nat, depth: nat, budget: U32, deadline: U32, h: nat, why: Why)
    requires Gathers(w, id, depth, budget, deadline, h, why)
    ensures Assembled(w, id, depth, budget, deadline) == Stopped(w, id, depth, h, why)
    decreases budget, 0
  {
    if h == 0 {
      StoppedHere(w, id, depth, why);
      var local := Hop(w.info(id, depth).value, 0, None);
      if why.AboveSilent? { assert Joined(local, [], w.link(depth).rtt) == [local]; }
    } else {
      StoppedIsWalk(w, w.upstream(id).value, depth + 1, budget - 1, deadline - FORWARDING_OVERHEAD_MS, h - 1, why);
      StoppedStep(w, id, depth, h, why);
    }
  }

  // ... and how a walk stops is what it returns: the hops of exactly the nodes
  // up to there, and exactly that reason.
  lemma {:induction false} StoppedIsWalk<T>(
    w: World<T>, id: nat, depth: nat, budget: U32, deadline: U32, h: nat, why: Why)
    requires Stops(w, id, depth, budget, deadline, h, why)
    ensures Answering(w, id, depth, h) && Walk(w, id, depth, budget, deadline) == Stopped(w, id, depth, h, why)
    decreases budget, 1
  {
    if Gathers(w, id, depth, budget, deadline, h, why) && w.size(depth, Stopped(w, id, depth, h, why)) <= w.cap {
      GatheredIsAssembled(w, id, depth, budget, deadline, h, why);
    } else {
      var n: nat, y: Why :| Overflows(w, id, depth, budget, deadline, n, y);
      GatheredIsAssembled(w, id, depth, budget, deadline, n, y);
      StoppedHere(w, id, depth, CutHere);
      assert Stopped(w, id, depth, n, y).hops[..1] == [Hop(w.info(id, depth).value, 0, None)];
    }
  }

  // Every walk that begins at a node that answers stops somewhere, for some reason.
  lemma {:induction false} WalkStops<T>(w: World<T>, id: nat, depth: nat, budget: U32, deadline: U32)
    returns (h: nat, why: Why)
    requires w.info(id, depth).Some?
    ensures Stops(w, id, depth, budget, deadline, h, why)
    decreases budget
  {
    h, why := GatheredSome(w, id, depth, budget, deadline);
    if w.size(depth, Stopped(w, id, depth, h, why)) > w.cap {
      assert Overflows(w, id, depth, budget, deadline, h, why);
      h, why := 0, CutHere;
    }
  }

  lemma {:induction false} GatheredSome<T>(w: World<T>, id: nat, depth: nat, budget: U32, deadline: U32)
    returns (h: nat, why: Why)
    requires w.info(id, depth).Some?
    ensures Gathers(w, id, depth, budget, deadline, h, why)
    decreases budget, 0
  {
    h := 0;
    if w.upstream(id).None? {
      why := AtTop;
    } else if budget <= 1 {
      why := DepthSpent;
    } else if deadline <= FORWARDING_OVERHEAD_MS {
      why := DeadlineSpent;
    } else if w.link(depth).Undelivered? {
      why := LinkFailed(w.link(depth).reason);
    } else if w.info(w.upstream(id).value, depth + 1).None? {
      why := AboveSilent;
    } else {
      var up := w.upstream(id).value;
      h, why := WalkStops(w, up, depth + 1, budget - 1, deadline - FORWARDING_OVERHEAD_MS);
      StoppedIsWalk(w, up, depth + 1, budget - 1, deadline - FORWARDING_OVERHEAD_MS, h, why);
      h := h + 1;
    }
  }

  // The nodes up to `h` links above can all pass on what is left of the path.
  ghost predicate PassOn<T>(w: World<T>, id: nat, depth: nat, h: nat, why: Why)
    requires Answering(w, id, depth, h)
    decreases h
  {
    && w.size(depth, Stopped(w, id, depth, h, why)) <= w.cap
    && (h > 0 ==> PassOn(w, w.upstream(id).value, depth + 1, h - 1, why))
  }

  // Without any cut, in closed form: the walk's limits reach `h` links up, the
  // nodes up to there answer over links that deliver and fit their replies,
  // and the node there ends the walk for the stated reason.
  ghost predicate EndsAt<T>(w: World<T>, id: nat, depth: nat, budget: U32, deadline: U32, h: nat, why: Why) {
    && Answering(w, id, depth, h) && PassOn(w, id, depth, h, why)
    && (h > 0 ==> budget > h && deadline > FORWARDING_OVERHEAD_MS * h)
    && Above(w, id, h).Some?
    && EndsHere(w, Above(w, id, h).value, depth + h, budget - h, deadline - FORWARDING_OVERHEAD_MS * h, why)
  }

  lemma {:induction false} EndsAtStops<T>(
    w: World<T>, id: nat, depth: nat, budget: U32, deadline: U32, h: nat, why: Why)
    requires EndsAt(w, id, depth, budget, deadline, h, why)
    ensures Stops(w, id, depth, budget, deadline, h, why)
    decreases h
  {
    if h > 0 {
      var up := w.upstream(id).value;
      assert Above(w, id, h) == Above(w, up, h - 1);
      EndsAtStops(w, up, depth + 1, budget - 1, deadline - FORWARDING_OVERHEAD_MS, h - 1, why);
    }
  }

  // The reply is then exactly the hops up to there, in closed form, flagged
  // partial unless there is no more path, with exactly the reason's text.
  lemma WalkEndsAt<T>(w: World<T>, id: nat, depth: nat, budget: U32, deadline: U32, h: nat, why: Why)
    requires EndsAt(w, id, depth, budget, deadline, h, why)
    ensures var r := Walk(w, id, depth, budget, deadline);
            && |r.hops| == h + 1 && FollowsPath(w, id, depth, r.hops)
            && r.partial == (why != AtTop) && r.error == TextFor(w.texts, why)
  {
    EndsAtStops(w, id, depth, budget, deadline, h, why);
    StoppedIsWalk(w, id, depth, budget, deadline, h, why);
    WalkFollowsPath(w, id, depth, budget, deadline);
  }

  // In the handlers' words, for a node that answers and has an upstream: a
  // budget of one, 250 milliseconds, a link that fails, a silent node above.
  lemma LimitTexts<T>(w: World<T>, id: nat, depth: nat, budget: U32, deadline: U32)
    requires (w.texts == CHAIN_HOP_TEXTS || w.texts == CANARY_TEXTS) && w.upstream(id).Some?
    requires w.info(id, depth).Some? && w.size(depth, Assembled(w, id, depth, budget, deadline)) <= w.cap
    ensures var error := Walk(w, id, depth, budget, deadline).error;
            && (budget <= 1 ==> error == Some("depth budget exhausted"))
            && (budget > 1 && deadline <= 250 ==> error == Some("deadline exhausted before upstream forward"))
            && (budget > 1 && deadline > 250 && w.link(depth).Undelivered? ==> error == Some(w.link(depth).reason))
            && (budget > 1 && deadline > 250 && w.link(depth).Delivered?
                ==> w.info(w.upstream(id).value, depth + 1).None? ==> error == Some("local introspection unavailable"))
  {
    var h, why := GatheredSome(w, id, depth, budget, deadline);
    GatheredIsAssembled(w, id, depth, budget, deadline, h, why);
  }

  // A reply that does not fit is replaced by the node's own hop and a note.
  lemma CutReply<T>(w: World<T>, id: nat, depth: nat, budget: U32, deadline: U32)
    requires w.info(id, depth).Some? && w.size(depth, Assembled(w, id, depth, budget, deadline)) > w.cap
    ensures var r := Walk(w, id, depth, budget, deadline);
            && r.hops == [Hop(w.info(id, depth).value, 0, None)] && r.partial
            && (w.texts == CHAIN_HOP_TEXTS ==> r.error == Some("reply exceeded 16384 bytes; truncated to local hop"))
            && (w.texts == CANARY_TEXTS ==> r.error == Some("reply exceeded 4096 bytes; truncated to local hop"))
  {
    var a := Assembled(w, id, depth, budget, deadline);
    assert a.hops[..1] == [Hop(w.info(id, depth).value, 0, None)];
  }

  // An emitted reply respects the cap exactly when it fitted as assembled or
  // its truncated form fits; truncation alone promises nothing.
  lemma EmittedFitsIff<T>(w: World<T>, id: nat, depth: nat, budget: U32, deadline: U32)
    requires w.info(id, depth).Some?
    ensures w.size(depth, Walk(w, id, depth, budget, deadline)) <= w.cap
            <==> || w.size(depth, Assembled(w, id, depth, budget, deadline)) <= w.cap
                 || w.size(depth, Reply([Hop(w.info(id, depth).value, 0, None)], true, Some(w.texts.oversize))) <= w.cap
  {
    var a := Assembled(w, id, depth, budget, deadline);
    assert a.hops[..1] == [Hop(w.info(id, depth).value, 0, None)];
  }

  // A node that can describe itself always puts its own hop first.
  lemma LocalHopFirst<T>(w: World<T>, id: nat, depth: nat, budget: U32, deadline: U32)
    requires w.info(id, depth).Some?
    ensures var hops := Walk(w, id, depth, budget, deadline).hops;
            |hops| > 0 && hops[0] == Hop(w.info(id, depth).value, 0, None)
  {
    var a := Assembled(w, id, depth, budget, deadline);
    assert a.hops[0] == Hop(w.info(id, depth).value, 0, None);
  }

  const SUMMARY_DEPTH_BUDGET: U32 := 16
  const SUMMARY_DEADLINE_MS: U32 := 5000

  // A zero or missing timeout means the default; a huge one is clamped to 32 bits.
  function SummaryDeadline(timeout: Option<U64>): U32 {
    if timeout.Some? && timeout.value > 0 then Min(timeout.value, 0xFFFF_FFFF) else SUMMARY_DEADLINE_MS
  }

  datatype Summary<T> = Summary(hops: seq<Hop<T>>, partial: bool)

  // What `chain summary` calls complete on a node with an upstream.
  ghost predicate SummaryReachesTop<T>(w: World<T>, up: nat, budget: nat, deadline: nat) {
    w.link(0).Delivered? && exists h: nat :: ReachesTop(w, up, 1, budget, deadline, h)
  }

  // What a summary holds: the asked node alone when it is the top, when it
  // cannot reach its upstream or when that says nothing, and otherwise every
  // node up to where the upstream's walk stops, partial unless that is the top.
  ghost predicate Summarises<T(!new)>(w: World<T>, id: nat, budget: U32, deadline: U32, r: Summary<T>) {
    && FollowsPath(w, id, 0, r.hops)
    && match w.upstream(id)
       case None => |r.hops| == 1 && !r.partial
       case Some(up) =>
         && (w.link(0).Undelivered? || w.info(up, 1).None? ==> |r.hops| == 1 && r.partial)
         && (w.link(0).Delivered? ==>
               forall h: nat, why: Why :: Stops(w, up, 1, budget, deadline, h, why)
                 ==> |r.hops| == h + 2 && r.partial == (why != AtTop))
  }

  // A summary over a chain that nothing hinders goes up to the limit or the
  // top, one that can reach the top has the whole path, and a summary's
  // completeness says which.
  lemma SummaryLength<T(!new)>(w: World<T>, id: nat, budget: U32, deadline: U32, r: Summary<T>)
    requires Summarises(w, id, budget, deadline, r) && w.upstream(id).Some? && w.info(id, 0).Some?
    ensures !r.partial <==> SummaryReachesTop(w, w.upstream(id).value, budget, deadline)
    ensures forall h: nat :: w.link(0).Delivered? && ReachesTop(w, w.upstream(id).value, 1, budget, deadline, h)
              ==> |r.hops| == h + 2
    ensures w.link(0).Delivered? && Clear(w, w.upstream(id).value, 1, budget, deadline)
            ==> && 2 <= |r.hops| <= 1 + HopLimit(budget, deadline)
                && (|r.hops| < 1 + HopLimit(budget, deadline) ==> Above(w, id, |r.hops|).None?)
                && (r.partial <==> Above(w, id, |r.hops|).Some?)
    ensures 0 < |r.hops| <= 1 + HopLimit(budget, deadline)
  {
    var up := w.upstream(id).value;
    WalkIsBounded(w, up, 1, budget, deadline);
    CompleteIff(w, up, 1, budget, deadline);
    if w.link(0).Delivered? && w.info(up, 1).Some? {
      var h, why := WalkStops(w, up, 1, budget, deadline);
      StoppedIsWalk(w, up, 1, budget, deadline, h, why);
      if Clear(w, up, 1, budget, deadline) { ClearWalk(w, up, 1, budget, deadline); }
      forall n: nat | ReachesTop(w, up, 1, budget, deadline, n)
        ensures |r.hops| == n + 2
      {
        ReachingIsComplete(w, up, 1, budget, deadline, n);
      }
      assert Above(w, id, h + 2) == Above(w, up, h + 1);
    }
  }

  // The local hop and, when there is an upstream, the walk that starts there.
  method Summarise<T(!new)>(w: World<T>, id: nat, budget: U32, deadline: U32) returns (r: Option<Summary<T>>)
    ensures r.None? <==> w.info(id, 0).None?
    ensures r.Some? ==> Summarises(w, id, budget, deadline, r.value)
  {
    var info := w.info(id, 0);
    if info.None? { return None; }
    var local := Hop(info.value, 0, None);
    var upstream := w.upstream(id);
    if upstream.None? { return Some(Summary([local], false)); }
    var link := w.link(0);
    if link.Undelivered? { return Some(Summary([local], true)); }
    var reply := HandleChainHopQuery(w, upstream.value, 1, budget, deadline);
    var hops := JoinUpstream(local, reply.hops, link.rtt);
    r := Some(Summary(hops, reply.partial));
    WalkFollowsPath(w, upstream.value, 1, budget, deadline);
    JoinedFollows(w, id, 0, reply.hops);
    forall h: nat, why: Why | Stops(w, upstream.value, 1, budget, deadline, h, why)
      ensures |hops| == h + 2 && reply.partial == (why != AtTop)
    {
      StoppedIsWalk(w, upstream.value, 1, budget, deadline, h, why);
    }
  }

  // `chain summary` as the control socket runs it: sixteen hops up, and five
  // seconds unless a timeout is given, which is cut to 32 bits.
  method DispatchChainSummary<T(!new)>(w: World<T>, id: nat, timeout: Option<U64>) returns (r: Option<Summary<T>>)
    ensures r.None? <==> w.info(id, 0).None?
    ensures r.Some? && (timeout.None? || timeout.value == 0) ==> Summarises(w, id, 16, 5000, r.value)
    ensures r.Some? && timeout.Some? && 0 < timeout.value <= 0xFFFF_FFFF
            ==> Summarises(w, id, 16, timeout.value, r.value)
    ensures r.Some? && timeout.Some? && timeout.value > 0xFFFF_FFFF ==> Summarises(w, id, 16, 0xFFFF_FFFF, r.value)
    ensures r.Some? ==> 0 < |r.value.hops| <= 17
  {
    r := Summarise(w, id, SUMMARY_DEPTH_BUDGET, SummaryDeadline(timeout));
    if r.Some? && w.upstream(id).Some? {
      SummaryLength(w, id, SUMMARY_DEPTH_BUDGET, SummaryDeadline(timeout), r.value);
    }
  }
}
