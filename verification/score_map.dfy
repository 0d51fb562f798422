/**
 The per-call candidate state of the hybrid scorer.

 The scorer keeps three maps while it scores a cart: accumulated scores (a
 default-zero map that remembers insertion order), the recorded explanation
 of each candidate, and its recorded signal type. Every signal pass is a
 sequence of contributions to this state; a contribution adds to one
 candidate's score and records an explanation for it, either always
 (`overwrite`) or only when none is recorded yet.
 */
module ScoreMap {
  import opened Indices
  import opened Wrappers

  datatype SignalType = RuleBased | SimilarityBased | Hybrid

  /** Why a candidate was recommended. `Unexplained` is the fallback the output
      uses for a candidate that has no recorded explanation. */
  datatype Reason =
    | RuleReason(antecedent: seq<nat>, consequent: nat)
    | SimReason(source: nat, sim: real)
    | Unexplained

  /** The signal type recorded alongside each kind of explanation. */
  function KindOf(why: Reason): SignalType {
    match why
    case RuleReason(_, _) => RuleBased
    case SimReason(_, _) => SimilarityBased
    case Unexplained => Hybrid
  }

  datatype Candidate = Candidate(index: nat, score: real)

  /** The candidates of a score list, in insertion order. */
  function Keys(s: seq<Candidate>): (r: seq<nat>)
    ensures |r| == |s|
    ensures forall i :: 0 <= i < |s| ==> r[i] == s[i].index
  {
    seq(|s|, i requires 0 <= i < |s| => s[i].index)
  }

  /** The score of `c`, or 0.0 when `c` has none (the default of the map). */
  function ScoreOf(s: seq<Candidate>, c: nat): real
    decreases |s|
  {
    if s == [] then 0.0
    else if s[0].index == c then s[0].score
    else ScoreOf(s[1..], c)
  }

  /** Keys and scores of a list with one entry in front. */
  lemma ConsFacts(a: Candidate, t: seq<Candidate>)
    ensures Keys([a] + t) == [a.index] + Keys(t)
    ensures forall d :: ScoreOf([a] + t, d) == if a.index == d then a.score else ScoreOf(t, d)
  {
    assert ([a] + t)[1..] == t;
  }

  /** Adds `delta` to the score of `c` in the insertion-ordered map, where a
      missing candidate starts at zero: an existing candidate keeps its place,
      a new one goes last. */
  function AddScore(s: seq<Candidate>, c: nat, delta: real): (r: seq<Candidate>)
    ensures Keys(r) == if c in Keys(s) then Keys(s) else Keys(s) + [c]
    ensures ScoreOf(r, c) == ScoreOf(s, c) + delta
    ensures forall d :: d != c ==> ScoreOf(r, d) == ScoreOf(s, d)
    decreases |s|
  {
    if s == [] then [Candidate(c, 0.0 + delta)]
    else
      ConsFacts(s[0], s[1..]);
      assert s == [s[0]] + s[1..];
      if s[0].index == c then
        ConsFacts(Candidate(c, s[0].score + delta), s[1..]);
        [Candidate(c, s[0].score + delta)] + s[1..]
      else
        var rest := AddScore(s[1..], c, delta);
        ConsFacts(s[0], rest);
        [s[0]] + rest
  }

  /** In a score list that holds each candidate once, every entry's score is
      its candidate's score. */
  lemma {:induction false} ScoreOfEntry(s: seq<Candidate>, j: nat)
    requires NoDup(Keys(s))
    requires 0 <= j < |s|
    ensures ScoreOf(s, s[j].index) == s[j].score
    decreases j
  {
    if j > 0 {
      assert Keys(s)[0] != Keys(s)[j];
      forall a, b | 0 <= a < b < |s| - 1
        ensures Keys(s[1..])[a] != Keys(s[1..])[b]
      {
        assert Keys(s)[a + 1] != Keys(s)[b + 1];
      }
      ScoreOfEntry(s[1..], j - 1);
    }
  }

  /** The scorer's state: scores, explanations and signal types. */
  datatype Acc = Acc(scores: seq<Candidate>, reasons: map<nat, Reason>, types: map<nat, SignalType>)

  const Empty: Acc := Acc([], map[], map[])

  /** One contribution of a signal pass. */
  datatype Event = Event(target: nat, delta: real, why: Reason, kind: SignalType, overwrite: bool)

  /** Adds the contribution to the target's score and records its explanation
      and type if `overwrite` is set or the target has no explanation yet. */
  function Contribute(acc: Acc, e: Event): (r: Acc)
    ensures ScoreOf(r.scores, e.target) == ScoreOf(acc.scores, e.target) + e.delta
    ensures forall d :: d != e.target ==> ScoreOf(r.scores, d) == ScoreOf(acc.scores, d)
    ensures e.overwrite || e.target !in acc.reasons ==>
      e.target in r.reasons && r.reasons[e.target] == e.why && e.target in r.types && r.types[e.target] == e.kind
    ensures !e.overwrite && e.target in acc.reasons ==> r.reasons == acc.reasons && r.types == acc.types
    ensures forall d :: d != e.target ==>
              && (d in r.reasons <==> d in acc.reasons) && (d in acc.reasons ==> r.reasons[d] == acc.reasons[d])
              && (d in r.types <==> d in acc.types) && (d in acc.types ==> r.types[d] == acc.types[d])
    ensures Keys(r.scores) == if e.target in Keys(acc.scores) then Keys(acc.scores) else Keys(acc.scores) + [e.target]
  {
    var record := e.overwrite || e.target !in acc.reasons;
    Acc(AddScore(acc.scores, e.target, e.delta),
        if record then acc.reasons[e.target := e.why] else acc.reasons,
        if record then acc.types[e.target := e.kind] else acc.types)
  }

  /** Applies the contributions in order. Candidates already scored keep their
      places, and a candidate once explained stays explained (an overwriting
      contribution may replace the explanation itself). */
  function Apply(acc: Acc, evs: seq<Event>): (r: Acc)
    ensures Keys(acc.scores) <= Keys(r.scores)
    ensures forall c :: c in acc.reasons ==> c in r.reasons
    decreases |evs|
  {
    if evs == [] then acc else Apply(Contribute(acc, evs[0]), evs[1..])
  }

  /** Some contribution targets `c`. */
  predicate Hits(evs: seq<Event>, c: nat) {
    exists i :: 0 <= i < |evs| && evs[i].target == c
  }

  /** The total added to `c` by the contributions. */
  function Mass(evs: seq<Event>, c: nat): real
    decreases |evs|
  {
    if evs == [] then 0.0
    else (if evs[0].target == c then evs[0].delta else 0.0) + Mass(evs[1..], c)
  }

  /** The explanation carried by the first contribution to `c`. */
  function FirstWhy(evs: seq<Event>, c: nat): Option<Reason>
    decreases |evs|
  {
    if evs == [] then None
    else if evs[0].target == c then Some(evs[0].why)
    else FirstWhy(evs[1..], c)
  }

  /** Each target appended at its first appearance after the keys `ks`. */
  function AppendNew(ks: seq<nat>, evs: seq<Event>): seq<nat>
    decreases |evs|
  {
    if evs == [] then ks
    else AppendNew(if evs[0].target in ks then ks else ks + [evs[0].target], evs[1..])
  }

  /** Every contribution records the type that goes with its explanation. */
  predicate WellTyped(evs: seq<Event>) {
    forall i :: 0 <= i < |evs| ==> evs[i].kind == KindOf(evs[i].why)
  }

  /** The three maps agree: the scored candidates are distinct and are exactly
      the ones with an explanation and a type, and each type matches its
      explanation. */
  ghost predicate Coherent(acc: Acc) {
    && NoDup(Keys(acc.scores))
    && (forall c :: c in acc.reasons <==> c in Keys(acc.scores))
    && (forall c :: c in acc.types <==> c in acc.reasons)
    && (forall c :: c in acc.reasons ==> acc.types[c] == KindOf(acc.reasons[c]))
  }

  lemma {:induction false} ApplyConcat(acc: Acc, a: seq<Event>, b: seq<Event>)
    ensures Apply(acc, a + b) == Apply(Apply(acc, a), b)
    decreases |a|
  {
    if a != [] {
      assert (a + b)[1..] == a[1..] + b;
      ApplyConcat(Contribute(acc, a[0]), a[1..], b);
    } else {
      assert a + b == b;
    }
  }

  lemma {:induction false} MassConcat(a: seq<Event>, b: seq<Event>, c: nat)
    ensures Mass(a + b, c) == Mass(a, c) + Mass(b, c)
    decreases |a|
  {
    if a != [] {
      assert (a + b)[1..] == a[1..] + b;
      MassConcat(a[1..], b, c);
    } else {
      assert a + b == b;
    }
  }

  lemma HitsConcat(a: seq<Event>, b: seq<Event>, c: nat)
    ensures Hits(a + b, c) <==> Hits(a, c) || Hits(b, c)
  {
    if Hits(a + b, c) {
      var i :| 0 <= i < |a + b| && (a + b)[i].target == c;
      if i >= |a| {
        assert b[i - |a|].target == c;
      }
    }
    if Hits(a, c) {
      var i :| 0 <= i < |a| && a[i].target == c;
      assert (a + b)[i].target == c;
    }
    if Hits(b, c) {
      var i :| 0 <= i < |b| && b[i].target == c;
      assert (a + b)[|a| + i].target == c;
    }
  }

  lemma {:induction false} FirstWhyConcat(a: seq<Event>, b: seq<Event>, c: nat)
    ensures FirstWhy(a + b, c) == if FirstWhy(a, c).Some? then FirstWhy(a, c) else FirstWhy(b, c)
    decreases |a|
  {
    if a != [] {
      assert (a + b)[1..] == a[1..] + b;
      FirstWhyConcat(a[1..], b, c);
    } else {
      assert a + b == b;
    }
  }

  lemma {:induction false} FirstWhyHits(evs: seq<Event>, c: nat)
    ensures FirstWhy(evs, c).Some? <==> Hits(evs, c)
    decreases |evs|
  {
    if evs != [] {
      FirstWhyHits(evs[1..], c);
      HitsConcat([evs[0]], evs[1..], c);
      assert evs == [evs[0]] + evs[1..];
    }
  }

  /** When every contribution to `c` carries explanation `w`, the first one
      does. */
  lemma {:induction false} FirstWhyUniform(evs: seq<Event>, c: nat, w: Reason)
    requires forall i :: 0 <= i < |evs| && evs[i].target == c ==> evs[i].why == w
    ensures FirstWhy(evs, c) == if Hits(evs, c) then Some(w) else None
    decreases |evs|
  {
    FirstWhyHits(evs, c);
    if evs != [] && evs[0].target != c {
      FirstWhyUniform(evs[1..], c, w);
      FirstWhyHits(evs[1..], c);
    }
  }

  /** The score of a candidate after the contributions is its score before plus
      everything contributed to it. */
  lemma {:induction false} ApplyScore(acc: Acc, evs: seq<Event>, c: nat)
    ensures ScoreOf(Apply(acc, evs).scores, c) == ScoreOf(acc.scores, c) + Mass(evs, c)
    decreases |evs|
  {
    if evs != [] {
      ApplyScore(Contribute(acc, evs[0]), evs[1..], c);
    }
  }

  /** The candidates after the contributions are the earlier ones, in place,
      followed by every new target in order of its first contribution. */
  lemma {:induction false} ApplyKeys(acc: Acc, evs: seq<Event>)
    ensures Keys(Apply(acc, evs).scores) == AppendNew(Keys(acc.scores), evs)
    decreases |evs|
  {
    if evs != [] {
      ApplyKeys(Contribute(acc, evs[0]), evs[1..]);
    }
  }

  lemma {:induction false} AppendNewMembers(ks: seq<nat>, evs: seq<Event>, c: nat)
    ensures c in AppendNew(ks, evs) <==> c in ks || Hits(evs, c)
    ensures NoDup(ks) ==> NoDup(AppendNew(ks, evs))
    decreases |evs|
  {
    if evs != [] {
      var t := evs[0].target;
      var ks' := if t in ks then ks else ks + [t];
      AppendNewMembers(ks', evs[1..], c);
      HitsConcat([evs[0]], evs[1..], c);
      assert evs == [evs[0]] + evs[1..];
      if NoDup(ks) && t !in ks {
        forall i, j | 0 <= i < j < |ks'|
          ensures ks'[i] != ks'[j]
        {
          if j == |ks| {
            assert ks'[i] in ks;
          }
        }
      }
    }
  }

  /** A candidate is in the score map afterwards exactly when it was before or
      some contribution targets it. */
  lemma ApplyMembers(acc: Acc, evs: seq<Event>, c: nat)
    ensures c in Keys(Apply(acc, evs).scores) <==> c in Keys(acc.scores) || Hits(evs, c)
  {
    ApplyKeys(acc, evs);
    AppendNewMembers(Keys(acc.scores), evs, c);
  }

  /** Well-typed contributions keep the three maps in agreement. */
  lemma {:induction false} ApplyCoherent(acc: Acc, evs: seq<Event>)
    requires Coherent(acc)
    requires WellTyped(evs)
    ensures Coherent(Apply(acc, evs))
    decreases |evs|
  {
    if evs != [] {
      var e := evs[0];
      var next := Contribute(acc, e);
      assert Keys(next.scores) == if e.target in Keys(acc.scores) then Keys(acc.scores) else Keys(acc.scores) + [e.target];
      if e.target !in Keys(acc.scores) {
        var ks := Keys(acc.scores) + [e.target];
        forall i, j | 0 <= i < j < |ks|
          ensures ks[i] != ks[j]
        {
          if j == |ks| - 1 {
            assert ks[i] in Keys(acc.scores);
          }
        }
      }
      assert e.kind == KindOf(e.why);
      assert Coherent(next);
      assert WellTyped(evs[1..]) by {
        forall i | 0 <= i < |evs[1..]|
          ensures evs[1..][i].kind == KindOf(evs[1..][i].why)
        {
          assert evs[1..][i] == evs[i + 1];
        }
      }
      ApplyCoherent(next, evs[1..]);
    }
  }

  /** A candidate no contribution targets keeps its explanation and type, or
      its lack of them. */
  lemma {:induction false} ApplyUntouched(acc: Acc, evs: seq<Event>, c: nat)
    requires !Hits(evs, c)
    ensures c in Apply(acc, evs).reasons <==> c in acc.reasons
    ensures c in acc.reasons ==> Apply(acc, evs).reasons[c] == acc.reasons[c]
    ensures c in Apply(acc, evs).types <==> c in acc.types
    ensures c in acc.types ==> Apply(acc, evs).types[c] == acc.types[c]
    decreases |evs|
  {
    if evs != [] {
      HitsConcat([evs[0]], evs[1..], c);
      assert evs == [evs[0]] + evs[1..];
      assert [evs[0]][0].target != c;
      ApplyUntouched(Contribute(acc, evs[0]), evs[1..], c);
    }
  }

  /** First writer wins: when no contribution overwrites, a candidate without
      an explanation gets the one of its first contribution, and one that
      already has an explanation keeps it. */
  lemma {:induction false} ApplyFirstWriter(acc: Acc, evs: seq<Event>, c: nat)
    requires forall i :: 0 <= i < |evs| ==> !evs[i].overwrite
    ensures c in acc.reasons ==> c in Apply(acc, evs).reasons && Apply(acc, evs).reasons[c] == acc.reasons[c]
    ensures c !in acc.reasons ==>
      (c in Apply(acc, evs).reasons <==> Hits(evs, c))
      && (Hits(evs, c) ==> FirstWhy(evs, c) == Some(Apply(acc, evs).reasons[c]))
    decreases |evs|
  {
    if evs != [] {
      var next := Contribute(acc, evs[0]);
      HitsConcat([evs[0]], evs[1..], c);
      assert evs == [evs[0]] + evs[1..];
      ApplyFirstWriter(next, evs[1..], c);
      if evs[0].target == c {
        assert Hits([evs[0]], c);
      } else {
        assert !Hits([evs[0]], c);
      }
    }
  }

  /** When every contribution to `c` carries the same explanation `w`, and `c`
      has no other explanation beforehand, `c` ends with `w` once it is hit,
      whether or not the contributions overwrite. */
  lemma {:induction false} ApplyUniformWriter(acc: Acc, evs: seq<Event>, c: nat, w: Reason)
    requires forall i :: 0 <= i < |evs| && evs[i].target == c ==> evs[i].why == w
    requires c in acc.reasons ==> acc.reasons[c] == w
    ensures Hits(evs, c) || c in acc.reasons ==> c in Apply(acc, evs).reasons && Apply(acc, evs).reasons[c] == w
    decreases |evs|
  {
    if evs != [] {
      var next := Contribute(acc, evs[0]);
      HitsConcat([evs[0]], evs[1..], c);
      assert evs == [evs[0]] + evs[1..];
      if evs[0].target == c {
        assert Hits([evs[0]], c);
      } else {
        assert !Hits([evs[0]], c);
      }
      ApplyUniformWriter(next, evs[1..], c, w);
    }
  }
}
