// What a node says about itself: the predicate set it is driven by, its
// active rules and its place in the chain.
module Introspection {
  import opened Prelude
  import opened Postcard
  import opened Rules
  import opened Predicates

  datatype ChainIdentity = ChainIdentity(
    local: PubKey, upstream: Option<PubKey>, downstream: Option<PubKey>, predicateOrigin: Option<PubKey>,
    lastApplyUnix: Option<int>)

  datatype View = View(predicates: seq<Predicate>, derivedRules: seq<Rule>, chain: ChainIdentity)

  datatype Identity = Identity(local: PubKey, upstream: Option<PubKey>, downstream: Option<PubKey>)

  // What a node shows that last applied `applied`, at `lastApplyUnix` (a clock
  // at or before the epoch reads as "never"), and runs `rules`.
  function SnapshotOf(id: Identity, applied: Option<PredicateSet>, lastApplyUnix: int, rules: seq<Rule>): View {
    View(
      match applied { case Some(p) => p.predicates case None => [] },
      rules,
      ChainIdentity(
        id.local, id.upstream, id.downstream,
        match applied { case Some(p) => Some(p.origin) case None => None },
        if lastApplyUnix > 0 then Some(lastApplyUnix) else None))
  }

  class IntrospectionState {
    const identity: Identity
    var latest: Option<PredicateSet>
    var lastApplyUnix: int

    constructor (identity: Identity)
      ensures latest == None && lastApplyUnix == 0 && this.identity == identity
    {
      this.identity := identity;
      latest := None;
      lastApplyUnix := 0;
    }

    // Replaces any earlier set unconditionally. `now` is the wall clock.
    method RecordApply(set': PredicateSet, now: int)
      modifies this
      ensures latest == Some(set') && lastApplyUnix == now
    {
      latest := Some(set');
      lastApplyUnix := now;
    }
  }
}
