/**
 * The recruiter's ranking order: Python's `sorted(results, key=score, reverse=True)`,
 * a stable sort by descending score.
 */
module Ranking {

  /** One row of the ranking table: `{"Candidate": name, "Match Score (%)": score}`. */
  datatype CandidateResult = CandidateResult(name: string, score: real)

  /** Non-increasing in score from front to back. */
  predicate SortedDesc(s: seq<CandidateResult>)
  {
    forall i, j :: 0 <= i < j < |s| ==> s[i].score >= s[j].score
  }

  /** The entries of `s` whose score is exactly `k`, in their order in `s`. */
  function WithScore(s: seq<CandidateResult>, k: real): seq<CandidateResult>
  {
    if s == [] then []
    else (if s[0].score == k then [s[0]] else []) + WithScore(s[1..], k)
  }

  /** Equal scores keep their relative order: every equal-score subsequence is unchanged. */
  ghost predicate SameTies(s: seq<CandidateResult>, t: seq<CandidateResult>)
  {
    forall k :: WithScore(s, k) == WithScore(t, k)
  }

  /** Puts `x` in front of the first entry that does not outscore it. */
  function Insert(x: CandidateResult, s: seq<CandidateResult>): (r: seq<CandidateResult>)
    ensures |r| == |s| + 1
    ensures multiset(r) == multiset(s) + multiset{x}
  {
    if s == [] || x.score >= s[0].score then [x] + s
    else
      assert s == [s[0]] + s[1..];
      [s[0]] + Insert(x, s[1..])
  }

  /**
   * Insertion sort by descending score; earlier entries go before later ones with
   * the same score. The result holds exactly the entries it was given.
   */
  function SortByScoreDesc(s: seq<CandidateResult>): (r: seq<CandidateResult>)
    ensures |r| == |s|
    ensures multiset(r) == multiset(s)
  {
    if s == [] then [] else
      assert s == [s[0]] + s[1..];
      Insert(s[0], SortByScoreDesc(s[1..]))
  }

  lemma {:induction false} InsertSorted(x: CandidateResult, s: seq<CandidateResult>)
    requires SortedDesc(s)
    ensures SortedDesc(Insert(x, s))
  {
    if s != [] && x.score < s[0].score {
      InsertSorted(x, s[1..]);
      var r := Insert(x, s[1..]);
      forall j | 0 <= j < |r|
        ensures s[0].score >= r[j].score
      {
        assert r[j] in multiset(r);
      }
    }
  }

  lemma {:induction false} InsertTies(x: CandidateResult, s: seq<CandidateResult>, k: real)
    ensures WithScore(Insert(x, s), k) == WithScore([x] + s, k)
  {
    if s != [] && x.score < s[0].score {
      InsertTies(x, s[1..], k);
      assert ([s[0]] + Insert(x, s[1..]))[1..] == Insert(x, s[1..]);
      assert ([x] + s[1..])[1..] == s[1..];
      assert ([x] + s)[1..] == s;
    }
  }

  /** The ranking is non-increasing in score. */
  lemma {:induction false} SortSorted(s: seq<CandidateResult>)
    ensures SortedDesc(SortByScoreDesc(s))
  {
    if s != [] {
      SortSorted(s[1..]);
      InsertSorted(s[0], SortByScoreDesc(s[1..]));
    }
  }

  /** The sort is stable: entries with equal scores keep their input order. */
  lemma {:induction false} SortStable(s: seq<CandidateResult>)
    ensures SameTies(SortByScoreDesc(s), s)
  {
    if s != [] {
      SortStable(s[1..]);
      var rest := SortByScoreDesc(s[1..]);
      forall k
        ensures WithScore(SortByScoreDesc(s), k) == WithScore(s, k)
      {
        InsertTies(s[0], rest, k);
        assert ([s[0]] + rest)[1..] == rest;
      }
    }
  }

  lemma {:induction false} WithScoreMembers(s: seq<CandidateResult>, k: real, x: CandidateResult)
    ensures x in WithScore(s, k) <==> x in s && x.score == k
  {
    if s != [] {
      WithScoreMembers(s[1..], k, x);
      assert s == [s[0]] + s[1..];
    }
  }

  /** A ranking whose front entry has score `k` leads its subsequence of score `k`. */
  lemma WithScoreHead(s: seq<CandidateResult>)
    requires s != []
    ensures WithScore(s, s[0].score) == [s[0]] + WithScore(s[1..], s[0].score)
    ensures forall k :: k != s[0].score ==> WithScore(s, k) == WithScore(s[1..], k)
  {
  }

  /** The front of a descending ordering outscores or ties every entry. */
  lemma SortedHeadMax(s: seq<CandidateResult>, x: CandidateResult)
    requires SortedDesc(s) && x in s
    ensures s[0].score >= x.score
  {
    var i :| 0 <= i < |s| && s[i] == x;
    if i > 0 {
      assert s[0].score >= s[i].score;
    }
  }

  /** Entry `x` is among the entries of `s` scoring `x.score`. */
  lemma InOwnTie(s: seq<CandidateResult>, x: CandidateResult)
    requires x in s
    ensures x in WithScore(s, x.score)
  {
    WithScoreMembers(s, x.score, x);
  }

  lemma SortedTiesSameHead(a: seq<CandidateResult>, b: seq<CandidateResult>)
    requires SortedDesc(a) && SortedDesc(b) && SameTies(a, b)
    requires a != [] && b != []
    ensures a[0] == b[0]
  {
    var ka, kb := a[0].score, b[0].score;
    InOwnTie(a, a[0]);
    assert WithScore(a, ka) == WithScore(b, ka);
    WithScoreMembers(b, ka, a[0]);
    SortedHeadMax(b, a[0]);
    InOwnTie(b, b[0]);
    assert WithScore(b, kb) == WithScore(a, kb);
    WithScoreMembers(a, kb, b[0]);
    SortedHeadMax(a, b[0]);
    WithScoreHead(a);
    WithScoreHead(b);
    assert WithScore(a, ka)[0] == a[0];
    assert WithScore(b, kb)[0] == b[0];
  }

  lemma SameTiesTails(a: seq<CandidateResult>, b: seq<CandidateResult>)
    requires a != [] && b != [] && a[0] == b[0] && SameTies(a, b)
    ensures SameTies(a[1..], b[1..])
  {
    WithScoreHead(a);
    WithScoreHead(b);
    forall k
      ensures WithScore(a[1..], k) == WithScore(b[1..], k)
    {
      assert WithScore(a, k) == WithScore(b, k);
      if k == a[0].score {
        assert WithScore(a[1..], k) == WithScore(a, k)[1..];
        assert WithScore(b[1..], k) == WithScore(b, k)[1..];
      }
    }
  }

  /**
   * Sortedness and stability determine the order completely: two descending
   * orderings with the same equal-score subsequences are the same sequence.
   */
  lemma {:induction false} SortedTiesUnique(a: seq<CandidateResult>, b: seq<CandidateResult>)
    requires SortedDesc(a) && SortedDesc(b) && SameTies(a, b)
    ensures a == b
    decreases |a|
  {
    if a == [] || b == [] {
      var c := if a == [] then b else a;
      if c != [] {
        InOwnTie(c, c[0]);
        assert WithScore(a, c[0].score) != WithScore(b, c[0].score);
        assert false;
      }
    } else {
      SortedTiesSameHead(a, b);
      SameTiesTails(a, b);
      SortedTiesUnique(a[1..], b[1..]);
      assert a == [a[0]] + a[1..] && b == [b[0]] + b[1..];
    }
  }

  /**
   * What `sorted(..., reverse=True)` promises pins down `SortByScoreDesc`: any
   * descending ordering of `s` that keeps ties in input order is exactly it.
   */
  lemma StableSortIsUnique(s: seq<CandidateResult>, t: seq<CandidateResult>)
    requires SortedDesc(t) && SameTies(t, s)
    ensures t == SortByScoreDesc(s)
  {
    SortSorted(s);
    SortStable(s);
    SortedTiesUnique(t, SortByScoreDesc(s));
  }
}
