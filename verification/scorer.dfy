/**
 The hybrid recommendation scorer.

 Given a cart of display names, the rule table and the neighbour table, the
 scorer resolves the cart to a set of indices and runs three passes over it,
 in this order:
 - exact rules: the rules whose antecedent is the whole sorted cart add
   `confidence * lift` to each consequent outside the cart, and always record
   the rule as the explanation;
 - subset rules: for every sub-tuple of the sorted cart of size `k` in
   `1..min(2, |cart|)`, its rules add `confidence * lift / k`, recording the
   rule only for a candidate without an explanation;
 - similarity: for every cart item, each neighbour outside the cart gets
   `alpha * sim`, recording the similarity only for a candidate without an
   explanation.
 Candidates are then stably sorted by descending score and truncated to
 `topN`.

 Each pass is written as the sequence of contributions its loops make, in
 loop order; `ScoreMap.Apply` folds them into the scorer's state.
 */
module Scorer {
  import opened Indices
  import opened Wrappers
  import opened RuleLookup
  import opened Products
  import opened ScoreMap
  import opened Ranking

  datatype Neighbor = Neighbor(index: nat, sim: real)

  /** Per product, its similarity neighbours. */
  type NeighborTable = map<nat, seq<Neighbor>>

  /** The defaults of the scorer's `top_n` and `alpha` parameters. */
  const DefaultTopN: nat := 12
  const DefaultAlpha: real := 0.7

  /** One line of the result. */
  datatype Recommendation = Recommendation(product: string, index: nat, score: real, reason: Reason, kind: SignalType)

  type SubsetSize = k: nat | 1 <= k witness 1

  /** The rule pass a rule contribution comes from. */
  datatype Pass = ExactMatch | SubsetMatch(size: SubsetSize)

  /** The neighbour entries of item `i`: its list in the table, or none for
      an item the table does not list. */
  function NeighborsOf(nbrs: NeighborTable, i: nat): (r: seq<Neighbor>)
    ensures forall nb :: nb in r <==> i in nbrs && nb in nbrs[i]
  {
    if i in nbrs then nbrs[i] else []
  }

  /** What one rule adds to each of its consequents in a pass: a subset rule
      of size `k` adds a `k`-th of what it would add in the exact pass. */
  function Weight(r: Rule, pass: Pass): real {
    match pass
    case ExactMatch => r.confidence * r.lift
    case SubsetMatch(k) => r.confidence * r.lift * (1.0 / (k as real))
  }

  /** A contribution of a rule pass: to a candidate outside the cart, with the
      rule (its antecedent and the candidate) as explanation and the rule-based
      type, overwriting only in the exact pass. */
  predicate RuleEvent(e: Event, cart: set<nat>, ant: seq<nat>, pass: Pass) {
    && e.target !in cart
    && e.why == RuleReason(ant, e.target)
    && e.kind == RuleBased
    && e.overwrite == pass.ExactMatch?
  }

  //-------------------------------------------------------------------------
  // The three passes, as contribution sequences
  //-------------------------------------------------------------------------

  /** The contributions of one rule's consequents, in order, skipping cart
      members. */
  function ConsequentEvents(cart: set<nat>, ant: seq<nat>, r: Rule, cs: seq<nat>, pass: Pass): (evs: seq<Event>)
    ensures forall i :: 0 <= i < |evs| ==> RuleEvent(evs[i], cart, ant, pass) && evs[i].target in cs
    ensures forall i :: 0 <= i < |evs| ==> evs[i].delta == Weight(r, pass)
    decreases |cs|
  {
    if cs == [] then []
    else
      var head := if cs[0] in cart then [] else [Event(cs[0], Weight(r, pass), RuleReason(ant, cs[0]), RuleBased, pass.ExactMatch?)];
      var rest := ConsequentEvents(cart, ant, r, cs[1..], pass);
      assert forall i :: 0 <= i < |rest| ==> rest[i].target in cs by {
        forall i | 0 <= i < |rest|
          ensures rest[i].target in cs
        {
          assert rest[i].target in cs[1..];
        }
      }
      head + rest
  }

  /** The contributions of a list of rules: each rule's consequents in turn. */
  function RuleEvents(cart: set<nat>, ant: seq<nat>, rules: seq<Rule>, pass: Pass): (evs: seq<Event>)
    ensures forall i :: 0 <= i < |evs| ==> RuleEvent(evs[i], cart, ant, pass)
    decreases |rules|
  {
    if rules == [] then []
    else ConsequentEvents(cart, ant, rules[0], rules[0].consequents, pass) + RuleEvents(cart, ant, rules[1..], pass)
  }

  /** The exact pass: the rules stored under the whole sorted cart. */
  function ExactEvents(cart: set<nat>, lookup: Lookup): (evs: seq<Event>)
    ensures forall i :: 0 <= i < |evs| ==> RuleEvent(evs[i], cart, SortSet(cart), ExactMatch)
  {
    var cs := SortSet(cart);
    if cs in lookup then RuleEvents(cart, cs, lookup[cs], ExactMatch) else []
  }

  /** The contributions of the size-`k` sub-tuples of the sorted cart, in
      combination order, for one size `k`. */
  function CombEvents(cart: set<nat>, lookup: Lookup, combs: seq<seq<nat>>, k: SubsetSize): (evs: seq<Event>)
    ensures forall i :: 0 <= i < |evs| ==>
      (evs[i].target !in cart && evs[i].why.RuleReason? && evs[i].why.consequent == evs[i].target
       && evs[i].kind == RuleBased && !evs[i].overwrite)
    ensures forall i :: 0 <= i < |evs| ==> evs[i].why.RuleReason? && evs[i].why.antecedent in combs
    decreases |combs|
  {
    if combs == [] then []
    else
      var rest := CombEvents(cart, lookup, combs[1..], k);
      assert forall i :: 0 <= i < |rest| ==> rest[i].why.antecedent in combs by {
        forall i | 0 <= i < |rest|
          ensures rest[i].why.antecedent in combs
        {
          assert rest[i].why.antecedent in combs[1..];
        }
      }
      (if combs[0] in lookup then RuleEvents(cart, combs[0], lookup[combs[0]], SubsetMatch(k)) else [])
      + rest
  }

  /** The contributions of the sub-tuple sizes from `k` up to `maxK`, the
      smaller sizes first. */
  function SizeEvents(cart: set<nat>, cs: seq<nat>, lookup: Lookup, k: SubsetSize, maxK: nat): (evs: seq<Event>)
    ensures forall i :: 0 <= i < |evs| ==>
      (evs[i].target !in cart && evs[i].why.RuleReason? && evs[i].why.consequent == evs[i].target
       && evs[i].kind == RuleBased && !evs[i].overwrite)
    decreases maxK + 1 - k
  {
    if k > maxK then []
    else CombEvents(cart, lookup, Combinations(cs, k), k) + SizeEvents(cart, cs, lookup, k + 1, maxK)
  }

  /** The subset pass: sub-tuples of the sorted cart of size 1 up to
      `min(2, |cart|)`. */
  function SubsetEvents(cart: set<nat>, lookup: Lookup): (evs: seq<Event>)
    ensures forall i :: 0 <= i < |evs| ==>
      (evs[i].target !in cart && evs[i].why.RuleReason? && evs[i].why.consequent == evs[i].target
       && evs[i].kind == RuleBased && !evs[i].overwrite)
    ensures forall i :: 0 <= i < |evs| ==>
      evs[i].why.RuleReason? && evs[i].why.antecedent in SubsetAntecedents(SortSet(cart))
  {
    var cs := SortSet(cart);
    SizeEventsShape(cart, cs, lookup);
    SizeEvents(cart, cs, lookup, 1, Min(2, |cs|))
  }

  /** What one neighbour entry adds to its neighbour. */
  function SimWeight(alpha: real, sim: real): real {
    alpha * sim
  }

  /** The contributions of the neighbour entries of one cart item, in order,
      skipping cart members. */
  function NeighborEvents(cart: set<nat>, i: nat, ns: seq<Neighbor>, alpha: real): (evs: seq<Event>)
    ensures forall j :: 0 <= j < |evs| ==>
      (evs[j].target !in cart && evs[j].why.SimReason? && evs[j].why.source == i
       && evs[j].kind == SimilarityBased && !evs[j].overwrite)
    decreases |ns|
  {
    if ns == [] then []
    else
      var nb := ns[0];
      (if nb.index in cart then [] else [Event(nb.index, SimWeight(alpha, nb.sim), SimReason(i, nb.sim), SimilarityBased, false)])
      + NeighborEvents(cart, i, ns[1..], alpha)
  }

  /** The similarity pass: the cart items in `order`, the iteration order of
      the cart set. */
  function SimEvents(cart: set<nat>, order: seq<nat>, nbrs: NeighborTable, alpha: real): (evs: seq<Event>)
    ensures forall j :: 0 <= j < |evs| ==>
      (evs[j].target !in cart && evs[j].why.SimReason? && evs[j].why.source in order
       && evs[j].kind == SimilarityBased && !evs[j].overwrite)
    decreases |order|
  {
    if order == [] then []
    else
      var head := NeighborEvents(cart, order[0], NeighborsOf(nbrs, order[0]), alpha);
      var rest := SimEvents(cart, order[1..], nbrs, alpha);
      assert forall j :: 0 <= j < |rest| ==> rest[j].why.source in order by {
        forall j | 0 <= j < |rest|
          ensures rest[j].why.source in order
        {
          assert rest[j].why.source in order[1..];
        }
      }
      head + rest
  }

  /** The scorer's state after the three passes over a resolved cart. The
      candidates are listed in the order of their first contribution: the
      exact pass's targets, then the subset pass's new ones, then the
      similarity pass's new ones. */
  function ScoreCart(cart: set<nat>, lookup: Lookup, nbrs: NeighborTable, alpha: real, order: seq<nat>): (acc: Acc)
    ensures Keys(acc.scores) ==
      AppendNew(AppendNew(AppendNew([], ExactEvents(cart, lookup)), SubsetEvents(cart, lookup)), SimEvents(cart, order, nbrs, alpha))
  {
    var afterExact := Apply(Empty, ExactEvents(cart, lookup));
    var afterSubsets := Apply(afterExact, SubsetEvents(cart, lookup));
    ApplyKeys(Empty, ExactEvents(cart, lookup));
    ApplyKeys(afterExact, SubsetEvents(cart, lookup));
    ApplyKeys(afterSubsets, SimEvents(cart, order, nbrs, alpha));
    Apply(afterSubsets, SimEvents(cart, order, nbrs, alpha))
  }

  //-------------------------------------------------------------------------
  // Reference definitions: who is reached, by how much, and why
  //-------------------------------------------------------------------------

  /** Some rule of the list names `c` as a consequent. */
  predicate Mentions(rules: seq<Rule>, c: nat) {
    exists j :: 0 <= j < |rules| && c in rules[j].consequents
  }

  /** `w` once for every occurrence of `c` in `cs`. */
  function PerOccurrence(cs: seq<nat>, c: nat, w: real): real
    decreases |cs|
  {
    if cs == [] then 0.0 else (if cs[0] == c then w else 0.0) + PerOccurrence(cs[1..], c, w)
  }

  /** What a list of rules gives `c` in a pass: each rule's weight once for
      every time it names `c`. */
  function RuleMass(rules: seq<Rule>, c: nat, pass: Pass): real
    decreases |rules|
  {
    if rules == [] then 0.0
    else PerOccurrence(rules[0].consequents, c, Weight(rules[0], pass)) + RuleMass(rules[1..], c, pass)
  }

  /** The antecedents the subset pass looks up, in its order: the singletons of
      the sorted cart, then its pairs when it has at least two items. */
  function SubsetAntecedents(cs: seq<nat>): (r: seq<seq<nat>>)
    ensures forall j :: 0 <= j < |r| ==> 1 <= |r[j]| <= 2
  {
    Combinations(cs, 1) + (if |cs| >= 2 then Combinations(cs, 2) else [])
  }

  /** What the rules stored under each of the size-`k` antecedents give `c`
      in the subset pass. */
  function DampedMass(combs: seq<seq<nat>>, k: SubsetSize, lookup: Lookup, c: nat): real
    decreases |combs|
  {
    if combs == [] then 0.0
    else
      var own := if combs[0] in lookup then RuleMass(lookup[combs[0]], c, SubsetMatch(k)) else 0.0;
      own + DampedMass(combs[1..], k, lookup, c)
  }

  /** `alpha * sim` for every entry of a neighbour list for `c`. */
  function SimTo(ns: seq<Neighbor>, c: nat, alpha: real): real
    decreases |ns|
  {
    if ns == [] then 0.0 else (if ns[0].index == c then SimWeight(alpha, ns[0].sim) else 0.0) + SimTo(ns[1..], c, alpha)
  }

  /** `SimTo` over the neighbour lists of the items of `order`. */
  function SimTotal(order: seq<nat>, nbrs: NeighborTable, c: nat, alpha: real): real
    decreases |order|
  {
    if order == [] then 0.0 else SimTo(NeighborsOf(nbrs, order[0]), c, alpha) + SimTotal(order[1..], nbrs, c, alpha)
  }

  /** What the exact pass adds to `c`. */
  function ExactShare(cart: set<nat>, lookup: Lookup, c: nat): real {
    var cs := SortSet(cart);
    if c in cart || cs !in lookup then 0.0 else RuleMass(lookup[cs], c, ExactMatch)
  }

  /** What the subset pass adds to `c`: the rules under the singletons of the
      sorted cart, then, for a cart of two or more, those under its pairs. */
  function SubsetShare(cart: set<nat>, lookup: Lookup, c: nat): real {
    var cs := SortSet(cart);
    if c in cart then 0.0
    else DampedMass(Combinations(cs, 1), 1, lookup, c)
         + (if |cs| >= 2 then DampedMass(Combinations(cs, 2), 2, lookup, c) else 0.0)
  }

  /** What the similarity pass adds to `c`. */
  function SimShare(cart: set<nat>, order: seq<nat>, nbrs: NeighborTable, alpha: real, c: nat): real {
    if c in cart then 0.0 else SimTotal(order, nbrs, c, alpha)
  }

  /** The first antecedent of `combs` stored in the table whose rules name `c`. */
  function FirstAntecedent(combs: seq<seq<nat>>, lookup: Lookup, c: nat): (r: Option<seq<nat>>)
    ensures r.Some? ==> r.value in combs && r.value in lookup && Mentions(lookup[r.value], c)
    ensures r.None? ==> forall j :: 0 <= j < |combs| && combs[j] in lookup ==> !Mentions(lookup[combs[j]], c)
    decreases |combs|
  {
    if combs == [] then None
    else if combs[0] in lookup && Mentions(lookup[combs[0]], c) then Some(combs[0])
    else FirstAntecedent(combs[1..], lookup, c)
  }

  /** The similarity of the first neighbour entry for `c` in the list. */
  function FirstNeighborSim(ns: seq<Neighbor>, c: nat): (r: Option<real>)
    ensures r.Some? ==> Neighbor(c, r.value) in ns
    ensures r.None? ==> forall j :: 0 <= j < |ns| ==> ns[j].index != c
    decreases |ns|
  {
    if ns == [] then None
    else if ns[0].index == c then Some(ns[0].sim)
    else FirstNeighborSim(ns[1..], c)
  }

  /** The first cart item, in `order`, with a neighbour entry for `c`, and that
      entry's similarity. */
  function FirstSimilar(order: seq<nat>, nbrs: NeighborTable, c: nat): (r: Option<(nat, real)>)
    ensures r.Some? ==> r.value.0 in order && Neighbor(c, r.value.1) in NeighborsOf(nbrs, r.value.0)
    ensures r.None? ==> forall j, k :: 0 <= j < |order| && 0 <= k < |NeighborsOf(nbrs, order[j])| ==> NeighborsOf(nbrs, order[j])[k].index != c
    decreases |order|
  {
    if order == [] then None
    else match FirstNeighborSim(NeighborsOf(nbrs, order[0]), c)
      case Some(s) => Some((order[0], s))
      case None => FirstSimilar(order[1..], nbrs, c)
  }

  /** Reached by an exact rule: a rule stored under the whole sorted cart
      names `c`. */
  predicate ExactHit(cart: set<nat>, lookup: Lookup, c: nat) {
    var cs := SortSet(cart);
    c !in cart && cs in lookup && Mentions(lookup[cs], c)
  }

  /** Reached by a subset rule. */
  predicate SubsetHit(cart: set<nat>, lookup: Lookup, c: nat) {
    c !in cart && FirstAntecedent(SubsetAntecedents(SortSet(cart)), lookup, c).Some?
  }

  /** Reached by similarity. */
  predicate SimHit(cart: set<nat>, order: seq<nat>, nbrs: NeighborTable, c: nat) {
    c !in cart && FirstSimilar(order, nbrs, c).Some?
  }

  /** The explanation a candidate should carry: the exact rule if one names it;
      otherwise the first subset rule that names it; otherwise its first
      similarity entry. */
  function ExpectedReason(cart: set<nat>, lookup: Lookup, nbrs: NeighborTable, order: seq<nat>, c: nat): Reason {
    var cs := SortSet(cart);
    if ExactHit(cart, lookup, c) then RuleReason(cs, c)
    else match FirstAntecedent(SubsetAntecedents(cs), lookup, c)
      case Some(a) => RuleReason(a, c)
      case None =>
        match FirstSimilar(order, nbrs, c)
        case Some(p) => SimReason(p.0, p.1)
        case None => Unexplained
  }

  //-------------------------------------------------------------------------
  // Per-pass lemmas
  //-------------------------------------------------------------------------

  lemma {:induction false} ConsequentEventsMass(cart: set<nat>, ant: seq<nat>, r: Rule, cs: seq<nat>, pass: Pass, c: nat)
    ensures Mass(ConsequentEvents(cart, ant, r, cs, pass), c) == if c in cart then 0.0 else PerOccurrence(cs, c, Weight(r, pass))
    decreases |cs|
  {
    if cs != [] {
      var head := if cs[0] in cart then [] else [Event(cs[0], Weight(r, pass), RuleReason(ant, cs[0]), RuleBased, pass.ExactMatch?)];
      var rest := ConsequentEvents(cart, ant, r, cs[1..], pass);
      assert ConsequentEvents(cart, ant, r, cs, pass) == head + rest;
      ConsequentEventsMass(cart, ant, r, cs[1..], pass, c);
      MassConcat(head, rest, c);
    }
  }

  lemma {:induction false} ConsequentEventsHits(cart: set<nat>, ant: seq<nat>, r: Rule, cs: seq<nat>, pass: Pass, c: nat)
    ensures Hits(ConsequentEvents(cart, ant, r, cs, pass), c) <==> c !in cart && c in cs
    decreases |cs|
  {
    if cs != [] {
      var head := if cs[0] in cart then [] else [Event(cs[0], Weight(r, pass), RuleReason(ant, cs[0]), RuleBased, pass.ExactMatch?)];
      var rest := ConsequentEvents(cart, ant, r, cs[1..], pass);
      ConsequentEventsHits(cart, ant, r, cs[1..], pass, c);
      HitsConcat(head, rest, c);
      assert cs == [cs[0]] + cs[1..];
      if head != [] {
        assert head[0].target == cs[0];
      }
    }
  }

  lemma {:induction false} RuleEventsMass(cart: set<nat>, ant: seq<nat>, rules: seq<Rule>, pass: Pass, c: nat)
    ensures Mass(RuleEvents(cart, ant, rules, pass), c) == if c in cart then 0.0 else RuleMass(rules, c, pass)
    decreases |rules|
  {
    if rules != [] {
      var r := rules[0];
      RuleEventsMass(cart, ant, rules[1..], pass, c);
      ConsequentEventsMass(cart, ant, r, r.consequents, pass, c);
      MassConcat(ConsequentEvents(cart, ant, r, r.consequents, pass), RuleEvents(cart, ant, rules[1..], pass), c);
    }
  }

  lemma {:induction false} RuleEventsHits(cart: set<nat>, ant: seq<nat>, rules: seq<Rule>, pass: Pass, c: nat)
    ensures Hits(RuleEvents(cart, ant, rules, pass), c) <==> c !in cart && Mentions(rules, c)
    decreases |rules|
  {
    if rules != [] {
      var r := rules[0];
      RuleEventsHits(cart, ant, rules[1..], pass, c);
      ConsequentEventsHits(cart, ant, r, r.consequents, pass, c);
      HitsConcat(ConsequentEvents(cart, ant, r, r.consequents, pass), RuleEvents(cart, ant, rules[1..], pass), c);
      if Mentions(rules, c) {
        var j :| 0 <= j < |rules| && c in rules[j].consequents;
        if j > 0 {
          assert rules[1..][j - 1] == rules[j];
        }
      }
      if Mentions(rules[1..], c) {
        var j :| 0 <= j < |rules[1..]| && c in rules[1..][j].consequents;
        assert rules[j + 1] == rules[1..][j];
      }
    }
  }

  /** The rule explanation every rule contribution to `c` carries. */
  lemma RuleEventsWhy(cart: set<nat>, ant: seq<nat>, rules: seq<Rule>, pass: Pass, c: nat)
    ensures FirstWhy(RuleEvents(cart, ant, rules, pass), c) ==
      if c !in cart && Mentions(rules, c) then Some(RuleReason(ant, c)) else None
  {
    var evs := RuleEvents(cart, ant, rules, pass);
    FirstWhyUniform(evs, c, RuleReason(ant, c));
    RuleEventsHits(cart, ant, rules, pass, c);
  }

  lemma {:induction false} CombEventsMass(cart: set<nat>, lookup: Lookup, combs: seq<seq<nat>>, k: SubsetSize, c: nat)
    ensures Mass(CombEvents(cart, lookup, combs, k), c) == if c in cart then 0.0 else DampedMass(combs, k, lookup, c)
    decreases |combs|
  {
    if combs != [] {
      var head := if combs[0] in lookup then RuleEvents(cart, combs[0], lookup[combs[0]], SubsetMatch(k)) else [];
      CombEventsMass(cart, lookup, combs[1..], k, c);
      MassConcat(head, CombEvents(cart, lookup, combs[1..], k), c);
      if combs[0] in lookup {
        RuleEventsMass(cart, combs[0], lookup[combs[0]], SubsetMatch(k), c);
      }
    }
  }

  lemma {:induction false} CombEventsWhy(cart: set<nat>, lookup: Lookup, combs: seq<seq<nat>>, k: SubsetSize, c: nat)
    ensures FirstWhy(CombEvents(cart, lookup, combs, k), c) ==
      if c in cart then None
      else match FirstAntecedent(combs, lookup, c)
        case Some(a) => Some(RuleReason(a, c))
        case None => None
    decreases |combs|
  {
    if combs != [] {
      var head := if combs[0] in lookup then RuleEvents(cart, combs[0], lookup[combs[0]], SubsetMatch(k)) else [];
      CombEventsWhy(cart, lookup, combs[1..], k, c);
      FirstWhyConcat(head, CombEvents(cart, lookup, combs[1..], k), c);
      if combs[0] in lookup {
        RuleEventsWhy(cart, combs[0], lookup[combs[0]], SubsetMatch(k), c);
      }
    }
  }

  lemma {:induction false} FirstAntecedentConcat(a: seq<seq<nat>>, b: seq<seq<nat>>, lookup: Lookup, c: nat)
    ensures FirstAntecedent(a + b, lookup, c) ==
      if FirstAntecedent(a, lookup, c).Some? then FirstAntecedent(a, lookup, c) else FirstAntecedent(b, lookup, c)
    decreases |a|
  {
    if a == [] {
      assert a + b == b;
    } else {
      assert (a + b)[1..] == a[1..] + b;
      FirstAntecedentConcat(a[1..], b, lookup, c);
    }
  }

  /** The subset pass visits the singletons of the sorted cart and then, for a
      cart of two or more, its pairs. */
  lemma SubsetEventsShape(cart: set<nat>, lookup: Lookup)
    ensures SubsetEvents(cart, lookup) ==
      CombEvents(cart, lookup, Combinations(SortSet(cart), 1), 1)
      + (if |SortSet(cart)| >= 2 then CombEvents(cart, lookup, Combinations(SortSet(cart), 2), 2) else [])
  {
    SizeEventsShape(cart, SortSet(cart), lookup);
  }

  lemma SizeEventsShape(cart: set<nat>, cs: seq<nat>, lookup: Lookup)
    ensures SizeEvents(cart, cs, lookup, 1, Min(2, |cs|)) ==
      CombEvents(cart, lookup, Combinations(cs, 1), 1)
      + (if |cs| >= 2 then CombEvents(cart, lookup, Combinations(cs, 2), 2) else [])
  {
    var one := CombEvents(cart, lookup, Combinations(cs, 1), 1);
    if |cs| == 0 {
      assert Combinations(cs, 1) == [];
      assert one == [];
    } else if |cs| == 1 {
      assert SizeEvents(cart, cs, lookup, 2, 1) == [];
      assert one + [] == one;
    } else {
      var two := CombEvents(cart, lookup, Combinations(cs, 2), 2);
      assert SizeEvents(cart, cs, lookup, 3, 2) == [];
      assert SizeEvents(cart, cs, lookup, 2, 2) == two + [];
      assert two + [] == two;
    }
  }

  lemma SubsetEventsMass(cart: set<nat>, lookup: Lookup, c: nat)
    ensures Mass(SubsetEvents(cart, lookup), c) == SubsetShare(cart, lookup, c)
  {
    SizeMass(cart, SortSet(cart), lookup, c);
  }

  lemma SizeMass(cart: set<nat>, cs: seq<nat>, lookup: Lookup, c: nat)
    ensures Mass(SizeEvents(cart, cs, lookup, 1, Min(2, |cs|)), c)
      == if c in cart then 0.0
         else DampedMass(Combinations(cs, 1), 1, lookup, c)
              + (if |cs| >= 2 then DampedMass(Combinations(cs, 2), 2, lookup, c) else 0.0)
  {
    var e1 := CombEvents(cart, lookup, Combinations(cs, 1), 1);
    var e2 := if |cs| >= 2 then CombEvents(cart, lookup, Combinations(cs, 2), 2) else [];
    SizeEventsShape(cart, cs, lookup);
    CombEventsMass(cart, lookup, Combinations(cs, 1), 1, c);
    if |cs| >= 2 {
      CombEventsMass(cart, lookup, Combinations(cs, 2), 2, c);
    }
    MassConcat(e1, e2, c);
  }

  lemma SubsetEventsWhy(cart: set<nat>, lookup: Lookup, c: nat)
    ensures FirstWhy(SubsetEvents(cart, lookup), c) ==
      if c in cart then None
      else match FirstAntecedent(SubsetAntecedents(SortSet(cart)), lookup, c)
        case Some(a) => Some(RuleReason(a, c))
        case None => None
  {
    var cs := SortSet(cart);
    var one := Combinations(cs, 1);
    var two := if |cs| >= 2 then Combinations(cs, 2) else [];
    SubsetEventsShape(cart, lookup);
    CombEventsWhy(cart, lookup, one, 1, c);
    FirstAntecedentConcat(one, two, lookup, c);
    if |cs| >= 2 {
      CombEventsWhy(cart, lookup, two, 2, c);
      FirstWhyConcat(CombEvents(cart, lookup, one, 1), CombEvents(cart, lookup, two, 2), c);
    } else {
      assert CombEvents(cart, lookup, one, 1) + [] == CombEvents(cart, lookup, one, 1);
      assert FirstAntecedent(two, lookup, c) == None;
    }
  }

  lemma {:induction false} NeighborEventsMass(cart: set<nat>, i: nat, ns: seq<Neighbor>, alpha: real, c: nat)
    ensures Mass(NeighborEvents(cart, i, ns, alpha), c) == if c in cart then 0.0 else SimTo(ns, c, alpha)
    decreases |ns|
  {
    if ns != [] {
      var nb := ns[0];
      var head := if nb.index in cart then [] else [Event(nb.index, SimWeight(alpha, nb.sim), SimReason(i, nb.sim), SimilarityBased, false)];
      var rest := NeighborEvents(cart, i, ns[1..], alpha);
      assert NeighborEvents(cart, i, ns, alpha) == head + rest;
      NeighborEventsMass(cart, i, ns[1..], alpha, c);
      MassConcat(head, rest, c);
    }
  }

  lemma {:induction false} NeighborEventsWhy(cart: set<nat>, i: nat, ns: seq<Neighbor>, alpha: real, c: nat)
    ensures FirstWhy(NeighborEvents(cart, i, ns, alpha), c) ==
      if c in cart then None
      else match FirstNeighborSim(ns, c)
        case Some(s) => Some(SimReason(i, s))
        case None => None
    decreases |ns|
  {
    if ns != [] {
      var nb := ns[0];
      var head := if nb.index in cart then [] else [Event(nb.index, SimWeight(alpha, nb.sim), SimReason(i, nb.sim), SimilarityBased, false)];
      NeighborEventsWhy(cart, i, ns[1..], alpha, c);
      FirstWhyConcat(head, NeighborEvents(cart, i, ns[1..], alpha), c);
    }
  }

  lemma {:induction false} SimEventsMass(cart: set<nat>, order: seq<nat>, nbrs: NeighborTable, alpha: real, c: nat)
    ensures Mass(SimEvents(cart, order, nbrs, alpha), c) == SimShare(cart, order, nbrs, alpha, c)
    decreases |order|
  {
    if order != [] {
      var ns := NeighborsOf(nbrs, order[0]);
      SimEventsMass(cart, order[1..], nbrs, alpha, c);
      NeighborEventsMass(cart, order[0], ns, alpha, c);
      MassConcat(NeighborEvents(cart, order[0], ns, alpha), SimEvents(cart, order[1..], nbrs, alpha), c);
      assert SimEvents(cart, order, nbrs, alpha) ==
        NeighborEvents(cart, order[0], ns, alpha) + SimEvents(cart, order[1..], nbrs, alpha);
    }
  }

  lemma {:induction false} SimEventsWhy(cart: set<nat>, order: seq<nat>, nbrs: NeighborTable, alpha: real, c: nat)
    ensures FirstWhy(SimEvents(cart, order, nbrs, alpha), c) ==
      if c in cart then None
      else match FirstSimilar(order, nbrs, c)
        case Some(p) => Some(SimReason(p.0, p.1))
        case None => None
    decreases |order|
  {
    if order != [] {
      var ns := NeighborsOf(nbrs, order[0]);
      SimEventsWhy(cart, order[1..], nbrs, alpha, c);
      NeighborEventsWhy(cart, order[0], ns, alpha, c);
      FirstWhyConcat(NeighborEvents(cart, order[0], ns, alpha), SimEvents(cart, order[1..], nbrs, alpha), c);
    }
  }

  //-------------------------------------------------------------------------
  // Properties of the scorer's state after the three passes
  //-------------------------------------------------------------------------

  /** A candidate's score is the sum of its three shares: `confidence * lift`
      from each exact rule naming it, `confidence * lift / k` from each rule
      stored under a size-`k` sub-tuple of the sorted cart naming it, and
      `alpha * sim` from each neighbour entry of a cart item for it. */
  lemma ScoreIsSumOfShares(cart: set<nat>, lookup: Lookup, nbrs: NeighborTable, alpha: real, order: seq<nat>, c: nat)
    ensures ScoreOf(ScoreCart(cart, lookup, nbrs, alpha, order).scores, c) ==
      ExactShare(cart, lookup, c) + SubsetShare(cart, lookup, c) + SimShare(cart, order, nbrs, alpha, c)
  {
    var exact := ExactEvents(cart, lookup);
    var subsets := SubsetEvents(cart, lookup);
    var sims := SimEvents(cart, order, nbrs, alpha);
    var a1 := Apply(Empty, exact);
    var a2 := Apply(a1, subsets);
    ApplyScore(Empty, exact, c);
    ApplyScore(a1, subsets, c);
    ApplyScore(a2, sims, c);
    var cs := SortSet(cart);
    if cs in lookup {
      RuleEventsMass(cart, cs, lookup[cs], ExactMatch, c);
    }
    SubsetEventsMass(cart, lookup, c);
    SimEventsMass(cart, order, nbrs, alpha, c);
  }

  lemma ExactEventsHits(cart: set<nat>, lookup: Lookup, c: nat)
    ensures Hits(ExactEvents(cart, lookup), c) <==> ExactHit(cart, lookup, c)
  {
    var cs := SortSet(cart);
    if cs in lookup {
      RuleEventsHits(cart, cs, lookup[cs], ExactMatch, c);
    }
  }

  /** The candidates are exactly the products outside the cart that some exact
      rule, some subset rule or some neighbour entry of a cart item names;
      each is listed once. */
  lemma CandidatesAreReached(cart: set<nat>, lookup: Lookup, nbrs: NeighborTable, alpha: real, order: seq<nat>, c: nat)
    ensures c in Keys(ScoreCart(cart, lookup, nbrs, alpha, order).scores) <==>
      ExactHit(cart, lookup, c) || SubsetHit(cart, lookup, c) || SimHit(cart, order, nbrs, c)
    ensures NoDup(Keys(ScoreCart(cart, lookup, nbrs, alpha, order).scores))
  {
    var exact := ExactEvents(cart, lookup);
    var subsets := SubsetEvents(cart, lookup);
    var sims := SimEvents(cart, order, nbrs, alpha);
    var a1 := Apply(Empty, exact);
    var a2 := Apply(a1, subsets);
    ApplyMembers(Empty, exact, c);
    ApplyMembers(a1, subsets, c);
    ApplyMembers(a2, sims, c);
    ExactEventsHits(cart, lookup, c);
    SubsetEventsWhy(cart, lookup, c);
    FirstWhyHits(subsets, c);
    SimEventsWhy(cart, order, nbrs, alpha, c);
    FirstWhyHits(sims, c);
    StateCoherent(cart, lookup, nbrs, alpha, order);
  }

  lemma StateCoherent(cart: set<nat>, lookup: Lookup, nbrs: NeighborTable, alpha: real, order: seq<nat>)
    ensures Coherent(ScoreCart(cart, lookup, nbrs, alpha, order))
  {
    var exact := ExactEvents(cart, lookup);
    var subsets := SubsetEvents(cart, lookup);
    var sims := SimEvents(cart, order, nbrs, alpha);
    assert Coherent(Empty);
    ApplyCoherent(Empty, exact);
    ApplyCoherent(Apply(Empty, exact), subsets);
    ApplyCoherent(Apply(Apply(Empty, exact), subsets), sims);
  }

  /** Explanation precedence: a candidate records the exact rule when one names
      it (every exact write for it is the same rule explanation, so the last
      overwrite changes nothing); otherwise the first subset rule that names
      it; otherwise its first similarity entry. Its type is the one that goes
      with that explanation, so a candidate any rule reaches is rule-based. */
  lemma CandidateExplanation(cart: set<nat>, lookup: Lookup, nbrs: NeighborTable, alpha: real, order: seq<nat>, c: nat)
    requires c in Keys(ScoreCart(cart, lookup, nbrs, alpha, order).scores)
    ensures c in ScoreCart(cart, lookup, nbrs, alpha, order).reasons
    ensures ScoreCart(cart, lookup, nbrs, alpha, order).reasons[c] == ExpectedReason(cart, lookup, nbrs, order, c)
    ensures ExpectedReason(cart, lookup, nbrs, order, c) != Unexplained
    ensures c in ScoreCart(cart, lookup, nbrs, alpha, order).types
    ensures ScoreCart(cart, lookup, nbrs, alpha, order).types[c] == KindOf(ExpectedReason(cart, lookup, nbrs, order, c))
  {
    var cs := SortSet(cart);
    var exact := ExactEvents(cart, lookup);
    var subsets := SubsetEvents(cart, lookup);
    var sims := SimEvents(cart, order, nbrs, alpha);
    var a1 := Apply(Empty, exact);
    var a2 := Apply(a1, subsets);
    var a3 := Apply(a2, sims);
    CandidatesAreReached(cart, lookup, nbrs, alpha, order, c);
    StateCoherent(cart, lookup, nbrs, alpha, order);
    ExactEventsHits(cart, lookup, c);
    ApplyUniformWriter(Empty, exact, c, RuleReason(cs, c));
    if !Hits(exact, c) {
      ApplyUntouched(Empty, exact, c);
    }
    ApplyFirstWriter(a1, subsets, c);
    SubsetEventsWhy(cart, lookup, c);
    FirstWhyHits(subsets, c);
    ApplyFirstWriter(a2, sims, c);
    SimEventsWhy(cart, order, nbrs, alpha, c);
    FirstWhyHits(sims, c);
  }

  //-------------------------------------------------------------------------
  // The recommender
  //-------------------------------------------------------------------------

  /** Every index the scorer may name is in the catalog: the cart's indices,
      every consequent of every stored rule and every neighbour. */
  ghost predicate Named(catalog: Catalog, lookup: Lookup, nbrs: NeighborTable) {
    && (forall n :: n in catalog.nameToIdx ==> catalog.nameToIdx[n] in catalog.idxToName)
    && (forall k, j, x :: k in lookup && 0 <= j < |lookup[k]| && x in lookup[k][j].consequents ==> x in catalog.idxToName)
    && (forall i, j :: i in nbrs && 0 <= j < |nbrs[i]| ==> nbrs[i][j].index in catalog.idxToName)
  }

  /** Every candidate is outside the cart, named by the catalog, and carries an
      explanation other than the fallback together with the matching type. */
  lemma CandidatesExplained(catalog: Catalog, lookup: Lookup, nbrs: NeighborTable, cart: set<nat>, alpha: real, order: seq<nat>)
    requires Named(catalog, lookup, nbrs)
    ensures forall c :: c in Keys(ScoreCart(cart, lookup, nbrs, alpha, order).scores) ==>
      && c !in cart
      && c in catalog.idxToName
      && c in ScoreCart(cart, lookup, nbrs, alpha, order).reasons
      && ScoreCart(cart, lookup, nbrs, alpha, order).reasons[c] != Unexplained
      && c in ScoreCart(cart, lookup, nbrs, alpha, order).types
      && ScoreCart(cart, lookup, nbrs, alpha, order).types[c] == KindOf(ScoreCart(cart, lookup, nbrs, alpha, order).reasons[c])
  {
    var acc := ScoreCart(cart, lookup, nbrs, alpha, order);
    forall c | c in Keys(acc.scores)
      ensures c !in cart && c in catalog.idxToName
      ensures c in acc.reasons && acc.reasons[c] != Unexplained
      ensures c in acc.types && acc.types[c] == KindOf(acc.reasons[c])
    {
      CandidatesAreReached(cart, lookup, nbrs, alpha, order, c);
      CandidateExplanation(cart, lookup, nbrs, alpha, order, c);
      var cs := SortSet(cart);
      if ExactHit(cart, lookup, c) {
        var j :| 0 <= j < |lookup[cs]| && c in lookup[cs][j].consequents;
      } else if SubsetHit(cart, lookup, c) {
        var a := FirstAntecedent(SubsetAntecedents(cs), lookup, c).value;
        var j :| 0 <= j < |lookup[a]| && c in lookup[a][j].consequents;
      } else {
        var p := FirstSimilar(order, nbrs, c).value;
        var ns := NeighborsOf(nbrs, p.0);
        var j :| 0 <= j < |ns| && ns[j] == Neighbor(c, p.1);
        assert p.0 in nbrs;
        assert nbrs[p.0][j].index == c;
      }
    }
  }

  /** The output lines for the ranked candidates. */
  function Render(top: seq<Candidate>, acc: Acc, idxToName: map<nat, string>): (out: seq<Recommendation>)
    requires forall j :: 0 <= j < |top| ==> top[j].index in idxToName
    ensures |out| == |top|
    ensures forall j :: 0 <= j < |out| ==>
      (out[j].index == top[j].index && out[j].score == top[j].score && out[j].product == idxToName[top[j].index])
    ensures forall j :: 0 <= j < |out| ==>
      (out[j].reason == (if top[j].index in acc.reasons then acc.reasons[top[j].index] else Unexplained)
       && out[j].kind == (if top[j].index in acc.types then acc.types[top[j].index] else Hybrid))
    decreases |top|
  {
    if top == [] then []
    else
      var c := top[0].index;
      [Recommendation(
        idxToName[c],
        c,
        top[0].score,
        if c in acc.reasons then acc.reasons[c] else Unexplained,
        if c in acc.types then acc.types[c] else Hybrid)]
      + Render(top[1..], acc, idxToName)
  }

  /** `get_recommendations_from_cart(cart_item_names, top_n, alpha)`, with the
      cart set's iteration order given as `order`. */
  function Recommend(catalog: Catalog, lookup: Lookup, nbrs: NeighborTable, names: seq<string>,
                     topN: nat, alpha: real, order: seq<nat>): (out: seq<Recommendation>)
    requires Named(catalog, lookup, nbrs)
    requires Enumerates(order, ResolveCart(names, catalog.nameToIdx))
    ensures |out| == Min(topN, |ScoreCart(ResolveCart(names, catalog.nameToIdx), lookup, nbrs, alpha, order).scores|)
    ensures forall j :: 0 <= j < |out| ==> out[j].index !in ResolveCart(names, catalog.nameToIdx)
    ensures forall i, j :: 0 <= i < j < |out| ==> out[i].score >= out[j].score
    ensures forall i, j :: 0 <= i < j < |out| ==> out[i].index != out[j].index
    ensures forall j :: 0 <= j < |out| ==> out[j].reason != Unexplained && out[j].kind == KindOf(out[j].reason)
    ensures forall j :: 0 <= j < |out| ==>
      (out[j].index in catalog.idxToName && out[j].product == catalog.idxToName[out[j].index])
  {
    var cart := ResolveCart(names, catalog.nameToIdx);
    var acc := ScoreCart(cart, lookup, nbrs, alpha, order);
    var top := Take(StableSortDesc(acc.scores), topN);
    TopCandidates(catalog, lookup, nbrs, cart, alpha, order, topN);
    Render(top, acc, catalog.idxToName)
  }

  /** Called with its default `top_n` and `alpha`, as the page does, the
      scorer returns at most a dozen recommendations. */
  lemma DefaultsGiveAtMostTwelve(catalog: Catalog, lookup: Lookup, nbrs: NeighborTable, names: seq<string>,
                                 order: seq<nat>)
    requires Named(catalog, lookup, nbrs)
    requires Enumerates(order, ResolveCart(names, catalog.nameToIdx))
    ensures |Recommend(catalog, lookup, nbrs, names, DefaultTopN, DefaultAlpha, order)| <= 12
  {
  }

  /** The entries kept for output are distinct candidates, in non-increasing
      score order, each outside the cart, named by the catalog and explained. */
  lemma TopCandidates(catalog: Catalog, lookup: Lookup, nbrs: NeighborTable, cart: set<nat>, alpha: real, order: seq<nat>, topN: nat)
    requires Named(catalog, lookup, nbrs)
    ensures var acc := ScoreCart(cart, lookup, nbrs, alpha, order);
      var top := Take(StableSortDesc(acc.scores), topN);
      && |top| == Min(topN, |acc.scores|)
      && SortedDesc(top)
      && NoDup(Keys(top))
      && (forall j :: 0 <= j < |top| ==>
           (top[j].index !in cart && top[j].index in catalog.idxToName
            && top[j].index in acc.reasons && acc.reasons[top[j].index] != Unexplained
            && top[j].index in acc.types && acc.types[top[j].index] == KindOf(acc.reasons[top[j].index])))
  {
    var acc := ScoreCart(cart, lookup, nbrs, alpha, order);
    var top := Take(StableSortDesc(acc.scores), topN);
    CandidatesExplained(catalog, lookup, nbrs, cart, alpha, order);
    StateCoherent(cart, lookup, nbrs, alpha, order);
    RankedEntriesAreCandidates(acc.scores, topN);
    RankedTop(acc.scores, topN);
  }

  /** The ranked top entries are candidates of the score list, each once. */
  lemma RankedEntriesAreCandidates(s: seq<Candidate>, n: nat)
    requires NoDup(Keys(s))
    ensures forall j :: 0 <= j < |Take(StableSortDesc(s), n)| ==> Take(StableSortDesc(s), n)[j].index in Keys(s)
    ensures NoDup(Keys(Take(StableSortDesc(s), n)))
  {
    var sorted := StableSortDesc(s);
    var top := Take(sorted, n);
    forall j | 0 <= j < |top|
      ensures top[j].index in Keys(s)
    {
      assert top[j] == sorted[j];
      assert sorted[j] in multiset(s);
      var k :| 0 <= k < |s| && s[k] == sorted[j];
      assert Keys(s)[k] == top[j].index;
    }
    forall i, j | 0 <= i < j < |top|
      ensures top[i].index != top[j].index
    {
      // Candidates with equal indices are equal entries of `s`, which has none twice.
      DistinctIndicesDistinctEntries(s, sorted, i, j);
    }
  }

  lemma DistinctIndicesDistinctEntries(s: seq<Candidate>, sorted: seq<Candidate>, i: nat, j: nat)
    requires NoDup(Keys(s))
    requires multiset(sorted) == multiset(s)
    requires 0 <= i < j < |sorted|
    ensures sorted[i].index != sorted[j].index
  {
    assert sorted[i] in multiset(s);
    assert sorted[j] in multiset(s);
    var a :| 0 <= a < |s| && s[a] == sorted[i];
    var b :| 0 <= b < |s| && s[b] == sorted[j];
    NoDupOnce(s, a);
    OnceAtOnePosition(sorted, i, j);
    assert a != b;
    assert Keys(s)[a] != Keys(s)[b];
  }

  /** An element that occurs once does not occur at a second position. */
  lemma OnceAtOnePosition(t: seq<Candidate>, i: nat, j: nat)
    requires 0 <= i < j < |t|
    requires multiset(t)[t[i]] == 1
    ensures t[i] != t[j]
  {
    assert t == t[..j] + [t[j]] + t[j + 1..];
    assert t[i] == t[..j][i];
    assert multiset(t)[t[i]] >= multiset(t[..j])[t[i]] + multiset([t[j]])[t[i]];
  }

  lemma NoDupOnce(s: seq<Candidate>, a: nat)
    requires NoDup(Keys(s))
    requires 0 <= a < |s|
    ensures multiset(s)[s[a]] == 1
  {
    assert s == s[..a] + [s[a]] + s[a + 1..];
    forall k | 0 <= k < |s| && k != a
      ensures s[k] != s[a]
    {
      assert Keys(s)[k] != Keys(s)[a];
    }
    assert s[a] !in s[..a];
    assert s[a] !in s[a + 1..];
  }

  //-------------------------------------------------------------------------
  // Properties of the output
  //-------------------------------------------------------------------------

  /** The (index, score) pairs of the output lines. */
  function Lines(out: seq<Recommendation>): (r: seq<Candidate>)
    ensures |r| == |out|
    ensures forall j :: 0 <= j < |out| ==> r[j] == Candidate(out[j].index, out[j].score)
  {
    seq(|out|, j requires 0 <= j < |out| => Candidate(out[j].index, out[j].score))
  }

  /** Each output line carries its candidate's accumulated score, which is the
      sum of the candidate's three shares, and the explanation precedence
      selects for it. */
  lemma RecommendationsScored(catalog: Catalog, lookup: Lookup, nbrs: NeighborTable, names: seq<string>,
                              topN: nat, alpha: real, order: seq<nat>)
    requires Named(catalog, lookup, nbrs)
    requires Enumerates(order, ResolveCart(names, catalog.nameToIdx))
    ensures var cart := ResolveCart(names, catalog.nameToIdx);
      var out := Recommend(catalog, lookup, nbrs, names, topN, alpha, order);
      forall j :: 0 <= j < |out| ==>
        && out[j].score == ExactShare(cart, lookup, out[j].index) + SubsetShare(cart, lookup, out[j].index)
                           + SimShare(cart, order, nbrs, alpha, out[j].index)
        && out[j].reason == ExpectedReason(cart, lookup, nbrs, order, out[j].index)
  {
    var cart := ResolveCart(names, catalog.nameToIdx);
    var acc := ScoreCart(cart, lookup, nbrs, alpha, order);
    var sorted := StableSortDesc(acc.scores);
    var top := Take(sorted, topN);
    var out := Recommend(catalog, lookup, nbrs, names, topN, alpha, order);
    TopCandidates(catalog, lookup, nbrs, cart, alpha, order, topN);
    StateCoherent(cart, lookup, nbrs, alpha, order);
    forall j | 0 <= j < |out|
      ensures out[j].score == ExactShare(cart, lookup, out[j].index) + SubsetShare(cart, lookup, out[j].index)
                              + SimShare(cart, order, nbrs, alpha, out[j].index)
      ensures out[j].reason == ExpectedReason(cart, lookup, nbrs, order, out[j].index)
    {
      var c := top[j].index;
      assert top[j] == sorted[j];
      assert sorted[j] in multiset(acc.scores);
      var k :| 0 <= k < |acc.scores| && acc.scores[k] == top[j];
      ScoreOfEntry(acc.scores, k);
      ScoreIsSumOfShares(cart, lookup, nbrs, alpha, order, c);
      assert Keys(acc.scores)[k] == c;
      CandidateExplanation(cart, lookup, nbrs, alpha, order, c);
    }
  }

  /** The output ranks the candidates: for each score, the lines with that
      score are a prefix of the candidates with that score in the order they
      were first scored; every candidate left out scores no higher than any
      line; and with `topN` at least the number of candidates, every candidate
      is output. */
  lemma RecommendationOrder(catalog: Catalog, lookup: Lookup, nbrs: NeighborTable, names: seq<string>,
                            topN: nat, alpha: real, order: seq<nat>)
    requires Named(catalog, lookup, nbrs)
    requires Enumerates(order, ResolveCart(names, catalog.nameToIdx))
    ensures var acc := ScoreCart(ResolveCart(names, catalog.nameToIdx), lookup, nbrs, alpha, order);
      var out := Recommend(catalog, lookup, nbrs, names, topN, alpha, order);
      && (forall v :: WithScore(Lines(out), v) <= WithScore(acc.scores, v))
      && (forall x, j :: x in acc.scores && x !in Lines(out) && 0 <= j < |out| ==> out[j].score >= x.score)
      && (topN >= |acc.scores| ==> forall x :: x in acc.scores ==> x in Lines(out))
  {
    var cart := ResolveCart(names, catalog.nameToIdx);
    var acc := ScoreCart(cart, lookup, nbrs, alpha, order);
    var sorted := StableSortDesc(acc.scores);
    var top := Take(sorted, topN);
    var out := Recommend(catalog, lookup, nbrs, names, topN, alpha, order);
    TopCandidates(catalog, lookup, nbrs, cart, alpha, order, topN);
    assert Lines(out) == top;
    RankedTop(acc.scores, topN);
    if topN >= |acc.scores| {
      forall x | x in acc.scores
        ensures x in top
      {
        assert x in multiset(sorted);
      }
    }
  }

  /** Without any signal, that is when no rule and no neighbour entry reaches a
      product outside the cart, the result is empty. */
  lemma NoSignalNoRecommendations(catalog: Catalog, lookup: Lookup, nbrs: NeighborTable, names: seq<string>,
                                  topN: nat, alpha: real, order: seq<nat>)
    requires Named(catalog, lookup, nbrs)
    requires Enumerates(order, ResolveCart(names, catalog.nameToIdx))
    requires forall c ::
      && !ExactHit(ResolveCart(names, catalog.nameToIdx), lookup, c)
      && !SubsetHit(ResolveCart(names, catalog.nameToIdx), lookup, c)
      && !SimHit(ResolveCart(names, catalog.nameToIdx), order, nbrs, c)
    ensures Recommend(catalog, lookup, nbrs, names, topN, alpha, order) == []
  {
    NoSignalNoScores(ResolveCart(names, catalog.nameToIdx), lookup, nbrs, alpha, order);
  }

  /** `NoSignalNoRecommendations` for the score map: no candidate is scored. */
  lemma NoSignalNoScores(cart: set<nat>, lookup: Lookup, nbrs: NeighborTable, alpha: real, order: seq<nat>)
    requires forall c :: !ExactHit(cart, lookup, c) && !SubsetHit(cart, lookup, c) && !SimHit(cart, order, nbrs, c)
    ensures ScoreCart(cart, lookup, nbrs, alpha, order).scores == []
  {
    var acc := ScoreCart(cart, lookup, nbrs, alpha, order);
    forall c
      ensures c !in Keys(acc.scores)
    {
      CandidatesAreReached(cart, lookup, nbrs, alpha, order, c);
    }
    NothingInEmptyOnly(Keys(acc.scores));
  }

  /** A cart with no known product gives an empty result, provided no rule is
      stored under the empty tuple (see `RuleLookup.NoEmptyKey`). */
  lemma EmptyCartNoRecommendations(catalog: Catalog, lookup: Lookup, nbrs: NeighborTable, names: seq<string>,
                                   topN: nat, alpha: real, order: seq<nat>)
    requires Named(catalog, lookup, nbrs)
    requires Enumerates(order, ResolveCart(names, catalog.nameToIdx))
    requires ResolveCart(names, catalog.nameToIdx) == {}
    requires [] !in lookup
    ensures Recommend(catalog, lookup, nbrs, names, topN, alpha, order) == []
  {
    var cart := ResolveCart(names, catalog.nameToIdx);
    assert SortSet(cart) == [];
    assert SubsetAntecedents([]) == [];
    NothingInEmptyOnly(order);
    NoSignalNoRecommendations(catalog, lookup, nbrs, names, topN, alpha, order);
  }

  /** For a cart of one or two items the whole sorted cart is also one of the
      subset pass's antecedents, so every candidate an exact rule reaches is
      reached by the subset pass too, and those rules count twice: once in
      full and once damped. */
  lemma SmallCartCountedTwice(cart: set<nat>, lookup: Lookup, c: nat)
    requires 1 <= |cart| <= 2
    ensures SortSet(cart) in SubsetAntecedents(SortSet(cart))
    ensures ExactHit(cart, lookup, c) ==> SubsetHit(cart, lookup, c)
    ensures |cart| == 1 ==> SubsetShare(cart, lookup, c) == ExactShare(cart, lookup, c)
    ensures |cart| == 2 ==>
              SubsetShare(cart, lookup, c) ==
              (if c !in cart then DampedMass(Combinations(SortSet(cart), 1), 1, lookup, c) else 0.0)
              + ExactShare(cart, lookup, c) * 0.5
  {
    var cs := SortSet(cart);
    var j := WholeTupleIsAntecedent(cs);
    if ExactHit(cart, lookup, c) {
      var combs := SubsetAntecedents(cs);
      assert combs[j] in lookup && Mentions(lookup[combs[j]], c);
    }
    SmallCartSubsetShare(cart, lookup, c);
  }

  /** The subset share of a cart of one or two items: the whole-cart rules
      again at a `k`-th of their exact weight, plus, for two items, the
      singleton rules. */
  lemma SmallCartSubsetShare(cart: set<nat>, lookup: Lookup, c: nat)
    requires 1 <= |cart| <= 2
    ensures |cart| == 1 ==> SubsetShare(cart, lookup, c) == ExactShare(cart, lookup, c)
    ensures |cart| == 2 ==>
              SubsetShare(cart, lookup, c) ==
              (if c !in cart then DampedMass(Combinations(SortSet(cart), 1), 1, lookup, c) else 0.0)
              + ExactShare(cart, lookup, c) * 0.5
  {
    var cs := SortSet(cart);
    assert |cs| == |cart|;
    if c !in cart {
      if |cs| == 1 {
        SingleTupleMass(cs, lookup, c);
      } else {
        PairTupleMass(cs, lookup, c);
      }
      assert ExactShare(cart, lookup, c) == if cs in lookup then RuleMass(lookup[cs], c, ExactMatch) else 0.0;
    }
  }

  /** `SmallCartSubsetShare` for a sorted cart `cs` of one item: its only
      singleton is `cs` itself, whose rules count in full. */
  lemma SingleTupleMass(cs: seq<nat>, lookup: Lookup, c: nat)
    requires |cs| == 1
    ensures DampedMass(Combinations(cs, 1), 1, lookup, c) ==
            (if cs in lookup then RuleMass(lookup[cs], c, ExactMatch) else 0.0)
  {
    WholeTupleIsOnlyCombination(cs);
    WholeCartDamped(cs, 1, lookup, c);
  }

  /** `SmallCartSubsetShare` for a sorted cart `cs` of two items: its only
      pair is `cs` itself, whose rules count at half weight. */
  lemma PairTupleMass(cs: seq<nat>, lookup: Lookup, c: nat)
    requires |cs| == 2
    ensures DampedMass(Combinations(cs, 2), 2, lookup, c) ==
            (if cs in lookup then RuleMass(lookup[cs], c, ExactMatch) else 0.0) * 0.5
  {
    WholeTupleIsOnlyCombination(cs);
    WholeCartDamped(cs, 2, lookup, c);
  }

  /** The rules under one antecedent looked up at size `k` give a `k`-th of
      what they give in the exact pass. */
  lemma WholeCartDamped(cs: seq<nat>, k: SubsetSize, lookup: Lookup, c: nat)
    ensures DampedMass([cs], k, lookup, c) ==
      (if cs in lookup then RuleMass(lookup[cs], c, ExactMatch) else 0.0) * (1.0 / (k as real))
  {
    DampedSingle(cs, k, lookup, c);
    if cs in lookup {
      RuleMassDamped(lookup[cs], c, k);
    }
  }

  /** The damped mass of a single antecedent is that of its rules. */
  lemma DampedSingle(a: seq<nat>, k: SubsetSize, lookup: Lookup, c: nat)
    ensures DampedMass([a], k, lookup, c) == if a in lookup then RuleMass(lookup[a], c, SubsetMatch(k)) else 0.0
  {
    assert [a][1..] == [];
  }

  /** A list of rules gives a candidate a `k`-th as much under a size-`k`
      subset as under the exact pass. */
  lemma {:induction false} RuleMassDamped(rules: seq<Rule>, c: nat, k: SubsetSize)
    ensures RuleMass(rules, c, SubsetMatch(k)) == RuleMass(rules, c, ExactMatch) * (1.0 / (k as real))
    decreases |rules|
  {
    if rules != [] {
      var r := rules[0];
      RuleMassDamped(rules[1..], c, k);
      HeadDamped(r, c, k);
      RuleMassCons(rules, c, SubsetMatch(k));
      RuleMassCons(rules, c, ExactMatch);
      SumScaled(RuleMass(rules, c, SubsetMatch(k)), RuleMass(rules, c, ExactMatch),
                PerOccurrence(r.consequents, c, Weight(r, SubsetMatch(k))), RuleMass(rules[1..], c, SubsetMatch(k)),
                PerOccurrence(r.consequents, c, Weight(r, ExactMatch)), RuleMass(rules[1..], c, ExactMatch),
                1.0 / (k as real));
    } else {
      assert RuleMass(rules, c, ExactMatch) * (1.0 / (k as real)) == 0.0;
    }
  }

  /** `RuleMass` of a non-empty list: its first rule, then the rest. */
  lemma RuleMassCons(rules: seq<Rule>, c: nat, pass: Pass)
    requires rules != []
    ensures RuleMass(rules, c, pass) ==
            PerOccurrence(rules[0].consequents, c, Weight(rules[0], pass)) + RuleMass(rules[1..], c, pass)
  {
  }

  /** One rule gives a candidate a `k`-th as much under a size-`k` subset as
      under the exact pass. */
  lemma HeadDamped(r: Rule, c: nat, k: SubsetSize)
    ensures PerOccurrence(r.consequents, c, Weight(r, SubsetMatch(k))) ==
            PerOccurrence(r.consequents, c, Weight(r, ExactMatch)) * (1.0 / (k as real))
  {
    var d := 1.0 / (k as real);
    var ws := Weight(r, SubsetMatch(k));
    var we := Weight(r, ExactMatch);
    assert ws == we * d;
    PerOccurrenceScaled(r.consequents, c, we, d);
    assert PerOccurrence(r.consequents, c, ws) == PerOccurrence(r.consequents, c, we * d);
  }

  /** Scaling distributes over a sum; kept apart so that the solver sees only
      these reals. */
  lemma SumScaled(s: real, t: real, a: real, b: real, x: real, y: real, d: real)
    requires s == a + b && t == x + y
    requires a == x * d && b == y * d
    ensures s == t * d
  {
  }

  lemma {:induction false} PerOccurrenceScaled(cs: seq<nat>, c: nat, w: real, d: real)
    ensures PerOccurrence(cs, c, w * d) == PerOccurrence(cs, c, w) * d
    decreases |cs|
  {
    if cs != [] {
      PerOccurrenceScaled(cs[1..], c, w, d);
      var h := if cs[0] == c then w else 0.0;
      var t := PerOccurrence(cs[1..], c, w);
      assert (if cs[0] == c then w * d else 0.0) == h * d;
      assert h * d + t * d == (h + t) * d;
    }
  }

  /** For a sorted cart, the subset pass looks up exactly the ascending
      sub-tuples of one or two of its items. */
  lemma SubsetAntecedentsMembers(cs: seq<nat>, a: seq<nat>)
    requires Ascending(cs)
    ensures a in SubsetAntecedents(cs) <==> 1 <= |a| <= 2 && Ascending(a) && forall x :: x in a ==> x in cs
  {
    CombinationsMembers(cs, 1, a);
    CombinationsMembers(cs, 2, a);
    if |cs| < 2 {
      assert Combinations(cs, 2) == [];
    }
  }

  /** The subset pass looks up each of its antecedents once. */
  lemma SubsetAntecedentsDistinct(cs: seq<nat>)
    requires Ascending(cs)
    ensures NoDup(SubsetAntecedents(cs))
  {
    var ones := Combinations(cs, 1);
    var twos := if |cs| >= 2 then Combinations(cs, 2) else [];
    CombinationsDistinct(cs, 1);
    CombinationsDistinct(cs, 2);
    var all := SubsetAntecedents(cs);
    assert all == ones + twos;
    forall i, j | 0 <= i < j < |all|
      ensures all[i] != all[j]
    {
      if j < |ones| {
        assert all[i] == ones[i] && all[j] == ones[j];
      } else if i < |ones| {
        assert |all[i]| == 1 && |all[j]| == 2;
      } else {
        assert all[i] == twos[i - |ones|] && all[j] == twos[j - |ones|];
      }
    }
  }

  /** Where a tuple of one or two items occurs among its own subset
      antecedents. */
  lemma WholeTupleIsAntecedent(cs: seq<nat>) returns (j: nat)
    requires 1 <= |cs| <= 2
    ensures j < |SubsetAntecedents(cs)| && SubsetAntecedents(cs)[j] == cs
  {
    WholeTupleIsOnlyCombination(cs);
    if |cs| == 1 {
      assert SubsetAntecedents(cs) == [cs] + [];
      j := 0;
    } else {
      assert SubsetAntecedents(cs) == Combinations(cs, 1) + [cs];
      j := |SubsetAntecedents(cs)| - 1;
    }
  }

  /** Names the catalog does not know change nothing, wherever they appear in
      the cart. */
  lemma UnknownNamesChangeNothing(catalog: Catalog, lookup: Lookup, nbrs: NeighborTable,
                                  a: seq<string>, unknown: seq<string>, b: seq<string>,
                                  topN: nat, alpha: real, order: seq<nat>)
    requires Named(catalog, lookup, nbrs)
    requires forall n :: n in unknown ==> n !in catalog.nameToIdx
    requires Enumerates(order, ResolveCart(a + b, catalog.nameToIdx))
    ensures ResolveCart(a + unknown + b, catalog.nameToIdx) == ResolveCart(a + b, catalog.nameToIdx)
    ensures Recommend(catalog, lookup, nbrs, a + unknown + b, topN, alpha, order)
         == Recommend(catalog, lookup, nbrs, a + b, topN, alpha, order)
  {
    UnknownNamesIgnored(a, unknown, b, catalog.nameToIdx);
  }

  /** Naming a product twice is the same as naming it once. */
  lemma RepeatedNameChangesNothing(catalog: Catalog, lookup: Lookup, nbrs: NeighborTable,
                                   a: seq<string>, n: string, b: seq<string>,
                                   topN: nat, alpha: real, order: seq<nat>)
    requires Named(catalog, lookup, nbrs)
    requires n in a
    requires Enumerates(order, ResolveCart(a + b, catalog.nameToIdx))
    ensures ResolveCart(a + [n] + b, catalog.nameToIdx) == ResolveCart(a + b, catalog.nameToIdx)
    ensures Recommend(catalog, lookup, nbrs, a + [n] + b, topN, alpha, order)
         == Recommend(catalog, lookup, nbrs, a + b, topN, alpha, order)
  {
    RepeatedNamesCollapse(a, n, b, catalog.nameToIdx);
  }
}
