/**
 Ranking of the scored candidates: a stable sort by descending score,
 followed by truncation to the first `topN` entries.
 */
module Ranking {
  import opened ScoreMap

  /** Scores never increase along the sequence. */
  predicate SortedDesc(s: seq<Candidate>) {
    forall i, j :: 0 <= i < j < |s| ==> s[i].score >= s[j].score
  }

  /** The entries whose score is exactly `v`, in sequence order. */
  function WithScore(s: seq<Candidate>, v: real): seq<Candidate>
    decreases |s|
  {
    if s == [] then []
    else (if s[0].score == v then [s[0]] else []) + WithScore(s[1..], v)
  }

  /** Places `x` before the first entry that does not score higher than it, so
      that among equal scores `x` comes first. */
  function Insert(x: Candidate, s: seq<Candidate>): (r: seq<Candidate>)
    ensures |r| == |s| + 1
    ensures r[0] == x || (s != [] && r[0] == s[0])
    ensures multiset(r) == multiset(s) + multiset{x}
    decreases |s|
  {
    if s == [] || x.score >= s[0].score then
      [x] + s
    else
      assert s == [s[0]] + s[1..];
      [s[0]] + Insert(x, s[1..])
  }

  /** Inserting into a sorted list keeps it sorted. */
  lemma {:induction false} InsertSorted(x: Candidate, s: seq<Candidate>)
    requires SortedDesc(s)
    ensures SortedDesc(Insert(x, s))
    decreases |s|
  {
    if s != [] && x.score < s[0].score {
      var rest := Insert(x, s[1..]);
      InsertSorted(x, s[1..]);
      assert s[0].score >= rest[0].score;
      assert Insert(x, s) == [s[0]] + rest;
    }
  }

  lemma WithScoreCons(a: Candidate, t: seq<Candidate>, v: real)
    ensures WithScore([a] + t, v) == (if a.score == v then [a] else []) + WithScore(t, v)
  {
    assert ([a] + t)[1..] == t;
  }

  lemma {:induction false} InsertWithScore(x: Candidate, s: seq<Candidate>, v: real)
    ensures WithScore(Insert(x, s), v) == (if x.score == v then [x] else []) + WithScore(s, v)
    decreases |s|
  {
    if s == [] || x.score >= s[0].score {
      WithScoreCons(x, s, v);
    } else {
      InsertWithScore(x, s[1..], v);
      InsertBehindWithScore(x, s, v);
    }
  }

  /** The step of `InsertWithScore` where `x` goes behind the first entry. */
  lemma InsertBehindWithScore(x: Candidate, s: seq<Candidate>, v: real)
    requires s != [] && x.score < s[0].score
    requires WithScore(Insert(x, s[1..]), v) == (if x.score == v then [x] else []) + WithScore(s[1..], v)
    ensures WithScore(Insert(x, s), v) == (if x.score == v then [x] else []) + WithScore(s, v)
  {
    assert Insert(x, s) == [s[0]] + Insert(x, s[1..]);
    assert s == [s[0]] + s[1..];
    TieSwap(s[0], x, Insert(x, s[1..]), s[1..], v);
  }

  /** Two entries of different scores can pass each other without changing
      the entries of any one score. */
  lemma TieSwap(a: Candidate, x: Candidate, rest: seq<Candidate>, tail: seq<Candidate>, v: real)
    requires a.score != x.score
    requires WithScore(rest, v) == (if x.score == v then [x] else []) + WithScore(tail, v)
    ensures WithScore([a] + rest, v) == (if x.score == v then [x] else []) + WithScore([a] + tail, v)
  {
    WithScoreCons(a, rest, v);
    WithScoreCons(a, tail, v);
    if x.score == v {
      assert WithScore([a] + rest, v) == WithScore(rest, v);
      assert WithScore([a] + tail, v) == WithScore(tail, v);
    } else {
      assert WithScore(rest, v) == WithScore(tail, v);
      assert WithScore([a] + rest, v) == WithScore([a] + tail, v);
    }
  }

  /** Python's `sorted(..., key=score, reverse=True)`: a stable sort by
      descending score. */
  function StableSortDesc(s: seq<Candidate>): (r: seq<Candidate>)
    ensures |r| == |s|
    ensures SortedDesc(r)
    ensures multiset(r) == multiset(s)
    decreases |s|
  {
    if s == [] then []
    else
      assert s == [s[0]] + s[1..];
      InsertSorted(s[0], StableSortDesc(s[1..]));
      Insert(s[0], StableSortDesc(s[1..]))
  }

  /** Stability: for every score, the entries with that score keep their input
      order. */
  lemma {:induction false} StableSortKeepsTies(s: seq<Candidate>, v: real)
    ensures WithScore(StableSortDesc(s), v) == WithScore(s, v)
    decreases |s|
  {
    if s != [] {
      StableSortKeepsTies(s[1..], v);
      InsertWithScore(s[0], StableSortDesc(s[1..]), v);
    }
  }

  /** The first `n` entries of a sequence, or all of them when there are
      fewer. */
  function Take(s: seq<Candidate>, n: nat): (r: seq<Candidate>)
    ensures |r| == if n < |s| then n else |s|
    ensures r <= s
  {
    if n < |s| then s[..n] else s
  }

  lemma {:induction false} WithScorePrefix(s: seq<Candidate>, t: seq<Candidate>, v: real)
    requires t <= s
    ensures WithScore(t, v) <= WithScore(s, v)
    decreases |t|
  {
    if t != [] {
      assert t[1..] <= s[1..];
      WithScorePrefix(s[1..], t[1..], v);
    }
  }

  /** The ranked top entries: sorted by descending score; for each score, the
      entries with that score are a prefix of the input's entries with that
      score, in input order; and every input entry left out scores no higher
      than any entry kept. */
  lemma RankedTop(s: seq<Candidate>, n: nat)
    ensures SortedDesc(Take(StableSortDesc(s), n))
    ensures forall v :: WithScore(Take(StableSortDesc(s), n), v) <= WithScore(s, v)
    ensures forall x, i :: x in s && x !in Take(StableSortDesc(s), n) && 0 <= i < |Take(StableSortDesc(s), n)| ==>
      Take(StableSortDesc(s), n)[i].score >= x.score
  {
    var sorted := StableSortDesc(s);
    var top := Take(sorted, n);
    TakeSorted(sorted, n);
    forall v
      ensures WithScore(top, v) <= WithScore(s, v)
    {
      WithScorePrefix(sorted, top, v);
      StableSortKeepsTies(s, v);
    }
    LeftOutScoreLower(s, n);
  }

  lemma TakeSorted(s: seq<Candidate>, n: nat)
    requires SortedDesc(s)
    ensures SortedDesc(Take(s, n))
  {
    var top := Take(s, n);
    assert forall k :: 0 <= k < |top| ==> top[k] == s[k];
  }

  lemma LeftOutScoreLower(s: seq<Candidate>, n: nat)
    ensures forall x, i :: x in s && x !in Take(StableSortDesc(s), n) && 0 <= i < |Take(StableSortDesc(s), n)| ==>
      Take(StableSortDesc(s), n)[i].score >= x.score
  {
    var sorted := StableSortDesc(s);
    var top := Take(sorted, n);
    forall x, i | x in s && x !in top && 0 <= i < |top|
      ensures top[i].score >= x.score
    {
      assert x in multiset(sorted);
      var j := PositionBeyond(sorted, top, x);
      assert top[i] == sorted[i];
    }
  }

  /** An entry of a sequence missing from a prefix of it sits beyond that
      prefix. */
  lemma PositionBeyond(s: seq<Candidate>, prefix: seq<Candidate>, x: Candidate) returns (j: nat)
    requires prefix <= s && x in s && x !in prefix
    ensures |prefix| <= j < |s| && s[j] == x
  {
    j :| 0 <= j < |s| && s[j] == x;
    forall k | 0 <= k < |prefix|
      ensures s[k] != x
    {
      assert s[k] == prefix[k];
    }
  }
}
