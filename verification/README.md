# Hybrid cart recommender: a Dafny model

This project models the scoring core of a market-basket recommender. The
recommender has two precomputed inputs: association rules mined offline
(antecedent set, consequent set, support, confidence, lift) and an item-item
similarity table. Given a cart of product names, it suggests other products.

- **Rule table.** The mined rules are grouped in a table keyed by the
  antecedent written as an ascending tuple. Each rule is stored with its
  consequents as an ascending tuple.
- **Cart resolution.** The cart's names are resolved to a set of product
  indices. Unknown names are dropped and repeated names collapse.
- **Scoring.** The scorer then runs three passes. None of them ever scores a
  cart member.
  1. **Exact rules.** Every rule stored under the whole sorted cart adds
     `confidence * lift` to each of its consequents. It always records itself
     as the explanation.
  2. **Subset rules.** Every rule stored under a size-`k` sub-tuple of the
     sorted cart (`k` in `1..min(2, |cart|)`, in `itertools.combinations`
     order) adds `(confidence * lift) * (1/k)`. It records itself only for a
     candidate that has no explanation yet.
  3. **Similarity.** For each cart item, each of its neighbours adds
     `alpha * sim`. The neighbour is recorded as the explanation only when
     the candidate has none yet.
- **Ranking.** Candidates are stably sorted by descending score and cut to
  `top_n`. Each one is rendered with its name, score, explanation and signal
  type. The `'hybrid'` / `'Hybrid'` fallback is used when no explanation was
  recorded.

## Layout

| file | module | contents |
|---|---|---|
| `indices.dfy` | `Indices` | ascending tuples, `tuple(sorted(s))`, `itertools.combinations` |
| `rule_lookup.dfy` | `RuleLookup` | mined rules, the rule table and its construction |
| `products.dfy` | `Products` | the catalog maps and resolving a cart of names |
| `wrappers.dfy` | `Wrappers` | `Option` |
| `score_map.dfy` | `ScoreMap` | the per-call state: scores, explanations, types; contributions folded into it |
| `ranking.dfy` | `Ranking` | the stable descending sort and the `top_n` cut |
| `scorer.dfy` | `Scorer` | the three passes, reference definitions of each share, the recommender |

### How the scorer is modelled

- **Passes as contribution sequences.** Each pass is a function that returns
  the contributions its nested loops make, in loop order, as a sequence of
  `Event`s. `ScoreMap.Apply` folds them into the state. Each event holds a
  target, an amount, an explanation, a type, and whether it overwrites.
- **Insertion-ordered scores.** The score map is a `defaultdict(float)`, and
  its insertion order decides how ties are ordered after sorting. It is
  modelled as a sequence of `(index, score)` entries, where a new candidate
  goes last.
- **Rule weights.** `Scorer.Weight` is the formula of lines 64 and 78:
  `confidence * lift` in the exact pass, times `1/k` under a size-`k`
  sub-tuple.
- **Reference definitions.** Each pass has an independent description
  (`ExactShare`, `SubsetShare`, `SimShare`, `ExpectedReason`) written in
  terms of the tables rather than the loops. Lemmas connect the two.

## Model

| member | source | states |
|---|---|---|
| Indices.SortSet | streamlit_app.py:40 | the tuple for a set of indices is strictly ascending, has exactly the set's elements, and has the set's size |
| Indices.SortSetCanonical | streamlit_app.py:40 | an ascending tuple equals the sorted form of a set exactly when it has the same elements, so two antecedents share a key exactly when they are the same set |
| Indices.Combinations | streamlit_app.py:72 | every combination has length `k`, uses only items of the tuple, and is ascending when the tuple is |
| Indices.CombinationsMembers | streamlit_app.py:72 | for an ascending tuple, a sequence is one of its size-`k` combinations exactly when it has length `k`, is ascending and uses only the tuple's items |
| Indices.CombinationsDistinct | streamlit_app.py:72 | no combination of an ascending tuple is produced twice |
| Indices.CombinationsArePairs | streamlit_app.py:72 | the size-2 combinations are the first item paired with each later item, then the pairs of the rest, in that order |
| Indices.PairsInOrder | streamlit_app.py:72 | a tuple of `n` items has `PairCount(n)` pairs, where `2 * PairCount(n) == n(n-1)`, and the pair of its `i`-th and `j`-th items sits at position `PairPos(n, i, j)` |
| Indices.PairPosOrder | streamlit_app.py:72 | pair positions follow the lexicographic order of the index pairs `(i, j)` |
| Indices.PairAt | streamlit_app.py:72 | every position below `PairCount(n)` is the position of some index pair `i < j < n` |
| Indices.SingletonCombinations | streamlit_app.py:71-72 | the size-1 combinations are the singletons of the tuple's items, in tuple order |
| Indices.WholeTupleIsOnlyCombination | streamlit_app.py:70-72 | the only combination of a tuple's own length is the tuple itself |
| RuleLookup.KeyOf | streamlit_app.py:40 | a rule's key is ascending and holds exactly its antecedent items |
| RuleLookup.Stored | streamlit_app.py:41-46 | a stored rule has its consequents as an ascending tuple of exactly the consequent items; support, confidence and lift are copied unchanged |
| RuleLookup.AddRow | streamlit_app.py:42-47 | appending to the default-list table adds the rule's key, appends the stored rule to that key's list, and leaves every other key's list unchanged |
| RuleLookup.BuildLookup | streamlit_app.py:38-47 | every key of the table is an ascending tuple with a non-empty list of rules, and every stored consequent tuple is ascending |
| RuleLookup.BuildLookupGroups | streamlit_app.py:38-47 | the table has the sorted form of an antecedent set as a key exactly when some rule has that antecedent, and the list under it is the stored form of exactly those rules, in input order |
| RuleLookup.BuildLookupWellFormed | streamlit_app.py:38-47 | every key is ascending with a non-empty list, every stored consequent tuple is ascending, and the keys are exactly the sorted antecedents of the rules |
| RuleLookup.NoEmptyKey | streamlit_app.py:38-47 | rules with non-empty antecedents store nothing under the empty tuple |
| Products.CartIndices | streamlit_app.py:51 | the index of every known name of the cart is listed, every listed index is that of a known name, and there are no more indices than names |
| Products.ResolveCart | streamlit_app.py:51-52 | the cart set holds the index of every known name of the cart and nothing else |
| Products.ResolveCartMembers | streamlit_app.py:51-52 | an index is in the resolved cart exactly when some name of the cart is known and maps to it |
| Products.UnknownNamesIgnored | streamlit_app.py:51 | unknown names inserted anywhere in the cart leave the resolved cart unchanged |
| Products.RepeatedNamesCollapse | streamlit_app.py:51-52 | repeating a name already in the cart leaves the resolved cart unchanged |
| Products.ResolveCartSetOfNames | streamlit_app.py:51-52 | carts naming the same names, in any order or multiplicity, resolve to the same set |
| ScoreMap.AddScore | streamlit_app.py:65 | `+=` on the default-zero map adds the amount to that candidate only; an existing candidate keeps its place and a new one is appended |
| ScoreMap.ScoreOfEntry | streamlit_app.py:95 | when candidates are distinct, each `(index, score)` item of the map carries that candidate's score |
| ScoreMap.Contribute | streamlit_app.py:65-82 | one contribution adds its amount to its target's score and to no other; it records its explanation and type when it overwrites or the target has none, and otherwise leaves both maps unchanged; other candidates' explanations and types never change; the target keeps its place or, if new, goes last |
| ScoreMap.Apply | streamlit_app.py:57-92 | folding contributions in keeps every earlier candidate in its place, and every explained candidate stays explained |
| ScoreMap.ApplyScore | streamlit_app.py:53 | after a run of contributions, each candidate's score is its earlier score plus the total contributed to it |
| ScoreMap.ApplyKeys | streamlit_app.py:53 | after a run of contributions, the candidates are the earlier ones in place, followed by each new target in order of its first contribution |
| ScoreMap.ApplyMembers | streamlit_app.py:53 | a candidate is scored afterwards exactly when it was before or some contribution targets it |
| ScoreMap.ApplyCoherent | streamlit_app.py:53-55 | the score, explanation and type maps keep the same distinct candidates, and each type matches its explanation |
| ScoreMap.ApplyFirstWriter | streamlit_app.py:80-82 | with insert-if-absent contributions, an existing explanation is kept and a candidate without one ends with the first explanation contributed to it |
| ScoreMap.ApplyUniformWriter | streamlit_app.py:66-67 | when every contribution to a candidate carries the same explanation `w`, whether or not it overwrites, and any explanation the candidate already has is `w`, the candidate ends explained by exactly `w` once it is hit or was already explained |
| ScoreMap.ApplyUntouched | streamlit_app.py:80-82 | a candidate no contribution targets keeps its explanation and type, or its lack of them |
| Ranking.Insert | streamlit_app.py:95 | inserting adds one entry: the result holds the input's entries plus the inserted one, is one longer than the input, and starts with the inserted entry or the input's first |
| Ranking.InsertSorted | streamlit_app.py:95 | inserting into a descending list keeps it descending |
| Ranking.StableSortDesc | streamlit_app.py:95 | the sort is a permutation of its input with non-increasing scores |
| Ranking.StableSortKeepsTies | streamlit_app.py:95 | for every score value, the entries with that score keep their input order |
| Ranking.Take | streamlit_app.py:97 | the cut is a prefix of length `min(n, len)` |
| Ranking.RankedTop | streamlit_app.py:95-97 | the kept entries are sorted; for each score they are a prefix of the input's entries with that score; every entry left out scores no higher than any entry kept |
| Scorer.NeighborsOf | streamlit_app.py:86 | the entries listed for an item are exactly its neighbour entries in the table, and none when the table has no list for it |
| Scorer.RuleEvents | streamlit_app.py:60-67 | every contribution of a rule list goes to a product outside the cart, names the looked-up antecedent and that product as explanation, is rule-based, and overwrites exactly in the exact pass |
| Scorer.ConsequentEvents | streamlit_app.py:61-67 | every contribution of a rule goes to one of its consequents outside the cart, with that rule as explanation and the rule's weight as amount |
| Scorer.ExactEvents | streamlit_app.py:59-67 | exact-pass contributions go outside the cart, carry the whole sorted cart as antecedent, are rule-based and overwrite |
| Scorer.CombEvents | streamlit_app.py:72-82 | subset-pass contributions go outside the cart, carry a rule explanation naming their target, are rule-based and never overwrite |
| Scorer.SizeEvents | streamlit_app.py:71-82 | the contributions for subset sizes `k` to `max_subset` go outside the cart, carry a rule explanation naming their target, are rule-based and never overwrite |
| Scorer.SubsetEvents | streamlit_app.py:70-82 | subset-pass contributions go outside the cart, are rule-based, never overwrite, and name as antecedent one of the tuples the pass looks up |
| Scorer.SubsetAntecedentsMembers | streamlit_app.py:70-72 | the subset pass looks up exactly the ascending tuples of one or two cart items |
| Scorer.SubsetAntecedentsDistinct | streamlit_app.py:70-72 | the subset pass looks up each of its tuples once |
| Scorer.NeighborEvents | streamlit_app.py:86-92 | similarity contributions go outside the cart, carry the cart item they come from, are similarity-based and never overwrite |
| Scorer.SimEvents | streamlit_app.py:85-92 | every similarity contribution comes from a cart item of the iteration order |
| Scorer.ScoreCart | streamlit_app.py:53-92 | the candidates are listed in order of first contribution: the exact pass's targets, then the new targets of the subset pass, then those of the similarity pass |
| Scorer.RuleEventsMass | streamlit_app.py:60-65 | what a rule list contributes to a product outside the cart is each rule's weight once per time it names the product; a cart member gets nothing |
| Scorer.RuleEventsHits | streamlit_app.py:60-63 | a rule list contributes to a product exactly when the product is outside the cart and some rule names it |
| Scorer.CombEventsMass | streamlit_app.py:72-79 | the contributions of the size-`k` antecedents to a product are the damped masses of the rules stored under them |
| Scorer.CombEventsWhy | streamlit_app.py:72-82 | the first subset explanation contributed to a product names the first looked-up antecedent whose rules name it |
| Scorer.SubsetEventsMass | streamlit_app.py:70-79 | the subset pass gives a product its subset share: singleton rules, then, for carts of two or more, pair rules at half weight |
| Scorer.RuleMassDamped | streamlit_app.py:74-78 | a rule list gives a product a `k`-th as much under a size-`k` antecedent as under the exact pass |
| Scorer.WholeCartDamped | streamlit_app.py:73-78 | the rules stored under one tuple give a product, looked up at size `k`, a `k`-th of what they give in the exact pass |
| Scorer.SubsetEventsWhy | streamlit_app.py:70-82 | the first subset explanation for a product outside the cart is the first singleton-then-pair antecedent whose rules name it |
| Scorer.NeighborEventsMass | streamlit_app.py:86-89 | one neighbour list gives a product outside the cart `alpha * sim` per entry for it |
| Scorer.SimEventsMass | streamlit_app.py:85-89 | the similarity pass gives a product outside the cart `alpha * sim` for every neighbour entry for it, over all cart items |
| Scorer.SimEventsWhy | streamlit_app.py:85-92 | the first similarity explanation for a product is its first neighbour entry, taking cart items in iteration order |
| Scorer.ScoreIsSumOfShares | streamlit_app.py:57-92 | a candidate's final score is its exact share plus its subset share plus its similarity share |
| Scorer.CandidatesAreReached | streamlit_app.py:57-92 | the candidates are exactly the products outside the cart that an exact rule, a subset rule or a neighbour entry of a cart item names, each listed once |
| Scorer.StateCoherent | streamlit_app.py:53-92 | after the three passes the three maps hold the same candidates and each type matches its explanation |
| Scorer.CandidateExplanation | streamlit_app.py:57-92 | precedence: the exact rule if one names the candidate, else the first subset rule, else the first similarity entry; the fallback is never recorded, and the type follows the explanation |
| Scorer.CandidatesExplained | streamlit_app.py:57-92 | every candidate is outside the cart, has a catalog name, and has a non-fallback explanation with its matching type |
| Scorer.SmallCartCountedTwice | streamlit_app.py:59-79 | for a cart of one or two items, every product an exact rule reaches is reached by a subset rule too; a one-item cart's subset share equals its exact share, and a two-item cart's is its singleton rules plus half its exact share |
| Scorer.Render | streamlit_app.py:97-103 | each output line has its candidate's index, score and catalog name, and the recorded explanation and type, with the fallback when none is recorded |
| Scorer.TopCandidates | streamlit_app.py:95-97 | the kept entries number `min(top_n, #candidates)`, are sorted and distinct, and each is outside the cart, named and explained |
| Scorer.Recommend | streamlit_app.py:50-104 | the output has `min(top_n, #candidates)` lines, no cart member, non-increasing scores, distinct products, no fallback explanation, types matching explanations, and catalog names |
| Scorer.DefaultsGiveAtMostTwelve | streamlit_app.py:50 | with the default `top_n` of 12 and `alpha` of 0.7, the result has at most twelve lines |
| Scorer.RecommendationsScored | streamlit_app.py:50-104 | each output line's score is the sum of its product's three shares, and its explanation is the one the precedence selects |
| Scorer.RecommendationOrder | streamlit_app.py:95-97 | among equal scores the lines keep first-insertion order; candidates left out score no higher than any line; with `top_n` at least the number of candidates, all are output |
| Scorer.NoSignalNoRecommendations | streamlit_app.py:50-104 | when no rule and no neighbour entry reaches a product outside the cart, the result is empty |
| Scorer.NoSignalNoScores | streamlit_app.py:57-92 | when no rule and no neighbour entry reaches a product outside the cart, no candidate is scored |
| Scorer.EmptyCartNoRecommendations | streamlit_app.py:51-59 | a cart with no known product gives an empty result when nothing is stored under the empty tuple |
| Scorer.UnknownNamesChangeNothing | streamlit_app.py:51 | unknown names anywhere in the cart change neither the resolved cart nor the result |
| Scorer.RepeatedNameChangesNothing | streamlit_app.py:51-52 | naming a product twice gives the same result as naming it once |

### Behaviour of the code worth noting

- **Exact-pass explanations.** Lines 66-67 write the explanation and type
  unconditionally, so exact-pass events overwrite. Every exact write for a
  candidate `c` is the same explanation, `(sorted cart) → c`, so the last
  write and the first write leave the same value (`ScoreMap.ApplyUniformWriter`,
  `Scorer.CandidateExplanation`).
- **Empty cart.** An empty cart still looks up the empty tuple in the exact
  pass (line 59). Its result is empty when no rule is stored under `()`,
  which holds for rules with non-empty antecedents (`RuleLookup.NoEmptyKey`).
  `Scorer.EmptyCartNoRecommendations` takes this as a premise.
- **Small carts.** For a cart of one or two items, `combinations` at line 72
  also yields the whole sorted cart, so the rules stored under it score once
  in the exact pass and again at weight `1/k` in the subset pass. A one-item
  cart's rules thus count twice in full; a two-item cart's count one and a
  half times (`Scorer.SmallCartCountedTwice`).

## Left out

- The Streamlit UI (line 9 and lines 106-144) and loading and unpacking the pickled artifacts (lines 11-29) are I/O. The model takes the catalog maps, the mined rules and the neighbour table as values.
- Floating point is modelled as `real`. Rounding the score to four places (line 100) is left out, so output scores are exact sums.
- Explanation strings (lines 66, 81, 91) are modelled as the data they are built from. `RuleReason(antecedent, consequent)` and `SimReason(source, sim)` stand for the formatted strings. The `sim:.3f` formatting and the name joining are not modelled, and neither is `idxs_to_names` (lines 34-35).
- `idx_to_name` lookups raise `KeyError` in the source when an index has no name. The model requires `Scorer.Named`: every cart index, stored consequent and neighbour has a catalog name. The error path is not modelled.
- Python's iteration order over `cart_set` (line 85) is unspecified by the language. It is the parameter `order`, required to list the resolved cart once each (`Indices.Enumerates`).
- Scorer.Recommend: `top_n` is a `nat`. A negative `top_n` slices from the end in Python (line 97), and that is not modelled.
- Scorer.Recommend: the `support` statistic is carried in stored rules but never affects scoring, as in the source.
- The product-identifier maps (`prod_id_to_idx`, `idx_to_prod_id`) are loaded but unused by the scorer, so they are not part of this model.
