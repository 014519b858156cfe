/**
 Ranking of one similarity row: `sorted(list(enumerate(row)), reverse=True,
 key=lambda x: x[1])[1:6]`. Scores are only ever compared, so they are reals.
 */
module Ranking {

  /** One element of `enumerate(row)`: a column index and its similarity score. */
  datatype Pair = Pair(index: nat, score: real)

  /** How many neighbours the slice `[1:6]` keeps at most. */
  const K: nat := 5

  function Min(a: int, b: int): int {
    if a <= b then a else b
  }

  /** `list(enumerate(row))`. */
  function Enumerate(row: seq<real>): seq<Pair> {
    seq(|row|, i requires 0 <= i < |row| => Pair(i, row[i]))
  }

  /** True when `p` is one of the pairs `enumerate(row)` yields. */
  predicate PairOf(row: seq<real>, p: Pair) {
    p.index < |row| && p.score == row[p.index]
  }

  /** The order the ranking produces: higher score first, equal scores by lower index. */
  predicate Before(a: Pair, b: Pair) {
    a.score > b.score || (a.score == b.score && a.index < b.index)
  }

  predicate NonIncreasing(s: seq<Pair>) {
    forall i, j :: 0 <= i < j < |s| ==> s[i].score >= s[j].score
  }

  predicate AscendingIndices(s: seq<Pair>) {
    forall i, j :: 0 <= i < j < |s| ==> s[i].index < s[j].index
  }

  /** Strictly ordered by `Before`: scores non-increasing, ties in ascending index. */
  predicate Ranked(s: seq<Pair>) {
    forall i, j :: 0 <= i < j < |s| ==> Before(s[i], s[j])
  }

  /** Adjacent elements are in non-increasing score order. */
  predicate ChainNonIncreasing(s: seq<Pair>) {
    forall i :: 0 < i < |s| ==> s[i - 1].score >= s[i].score
  }

  /** Adjacent elements are ordered by `Before`. */
  predicate ChainRanked(s: seq<Pair>) {
    forall i :: 0 < i < |s| ==> Before(s[i - 1], s[i])
  }

  /**
   Inserts `p`, which came earlier in the input than every element of `s`,
   after the elements that score strictly higher and before the rest: the step
   of a stable sort on the score, descending.
   */
  function Insert(p: Pair, s: seq<Pair>): (r: seq<Pair>)
    ensures multiset(r) == multiset(s) + multiset{p}
    ensures |r| == |s| + 1
    ensures r[0] == p || (s != [] && r[0] == s[0])
  {
    if s == [] || s[0].score <= p.score then [p] + s
    else
      assert s == [s[0]] + s[1..];
      [s[0]] + Insert(p, s[1..])
  }

  /** Insertion keeps a score-ordered sequence score-ordered. */
  lemma {:induction false} InsertKeepsScoreOrder(p: Pair, s: seq<Pair>)
    requires ChainNonIncreasing(s)
    ensures ChainNonIncreasing(Insert(p, s))
  {
    if s != [] && s[0].score > p.score {
      InsertKeepsScoreOrder(p, s[1..]);
      var t := Insert(p, s[1..]);
      assert Insert(p, s) == [s[0]] + t;
      assert s[0].score >= t[0].score;
    }
  }

  /**
   Insertion of a pair whose index is below every index of `s` keeps a ranked
   sequence ranked: on equal scores the inserted pair goes first.
   */
  lemma {:induction false} InsertKeepsRanking(p: Pair, s: seq<Pair>)
    requires ChainRanked(s)
    requires forall k :: 0 <= k < |s| ==> p.index < s[k].index
    ensures ChainRanked(Insert(p, s))
  {
    if s != [] && s[0].score > p.score {
      InsertKeepsRanking(p, s[1..]);
      var t := Insert(p, s[1..]);
      assert Insert(p, s) == [s[0]] + t;
      assert Before(s[0], t[0]);
    }
  }

  lemma {:induction false} ChainIsNonIncreasing(s: seq<Pair>)
    requires ChainNonIncreasing(s)
    ensures NonIncreasing(s)
    decreases |s|
  {
    if |s| > 1 {
      var u := s[1..];
      ChainIsNonIncreasing(u);
      forall i, j | 0 <= i < j < |s| ensures s[i].score >= s[j].score {
        if i > 0 {
          assert s[i] == u[i - 1] && s[j] == u[j - 1];
        } else if j > 1 {
          assert s[1] == u[0] && s[j] == u[j - 1];
        }
      }
    }
  }

  lemma {:induction false} ChainIsRanked(s: seq<Pair>)
    requires ChainRanked(s)
    ensures Ranked(s)
    decreases |s|
  {
    if |s| > 1 {
      var u := s[1..];
      ChainIsRanked(u);
      forall i, j | 0 <= i < j < |s| ensures Before(s[i], s[j]) {
        if i > 0 {
          assert s[i] == u[i - 1] && s[j] == u[j - 1];
        } else if j > 1 {
          assert s[1] == u[0] && s[j] == u[j - 1];
          assert Before(s[0], s[1]) && Before(s[1], s[j]);
        }
      }
    }
  }

  /** A permutation of the tail of an index-ascending sequence has only larger indices than its head. */
  lemma HeadIndexBelowRest(s: seq<Pair>, t: seq<Pair>)
    requires s != [] && AscendingIndices(s)
    requires multiset(t) == multiset(s[1..])
    ensures forall k :: 0 <= k < |t| ==> s[0].index < t[k].index
  {
    forall k | 0 <= k < |t| ensures s[0].index < t[k].index {
      assert t[k] in multiset(s[1..]);
      var m :| 0 <= m < |s[1..]| && s[1..][m] == t[k];
      assert s[m + 1] == t[k];
    }
  }

  /** The stable insertion sort, with its order stated on neighbours. */
  function InsertionSort(s: seq<Pair>): (r: seq<Pair>)
    ensures multiset(r) == multiset(s)
    ensures ChainNonIncreasing(r)
    ensures AscendingIndices(s) ==> ChainRanked(r)
  {
    if s == [] then []
    else
      var t := InsertionSort(s[1..]);
      InsertionStep(s, t);
      Insert(s[0], t)
  }

  /** Inserting the head into the sorted tail sorts the whole sequence. */
  lemma InsertionStep(s: seq<Pair>, t: seq<Pair>)
    requires s != [] && multiset(t) == multiset(s[1..])
    requires ChainNonIncreasing(t)
    requires AscendingIndices(s[1..]) ==> ChainRanked(t)
    ensures multiset(Insert(s[0], t)) == multiset(s)
    ensures ChainNonIncreasing(Insert(s[0], t))
    ensures AscendingIndices(s) ==> ChainRanked(Insert(s[0], t))
  {
    assert s == [s[0]] + s[1..];
    InsertKeepsScoreOrder(s[0], t);
    if AscendingIndices(s) {
      assert AscendingIndices(s[1..]);
      HeadIndexBelowRest(s, t);
      InsertKeepsRanking(s[0], t);
    }
  }

  /**
   Python's `sorted(..., reverse=True, key=score)`: a stable sort by score,
   descending. Stability shows as: on an input whose indices ascend (as
   `enumerate` yields them), equal scores come out in ascending index order.
   */
  function SortByScore(s: seq<Pair>): (r: seq<Pair>)
    ensures multiset(r) == multiset(s)
    ensures NonIncreasing(r)
    ensures AscendingIndices(s) ==> Ranked(r)
  {
    var r := InsertionSort(s);
    ChainIsNonIncreasing(r);
    if AscendingIndices(s) then ChainIsRanked(r); r else r
  }

  /** The full ranking of a similarity row. */
  function Rank(row: seq<real>): seq<Pair> {
    SortByScore(Enumerate(row))
  }

  /** `Rank(row)[1:6]`: the top-ranked pair dropped, at most `K` kept. */
  function TopNeighbours(row: seq<real>): (r: seq<Pair>)
    ensures |r| == (if |row| == 0 then 0 else Min(K, |row| - 1))
    ensures Ranked(r)
    ensures forall j :: 0 <= j < |r| ==> PairOf(row, r[j])
  {
    var ranked := Rank(row);
    RankIsRankingOf(row);
    if |ranked| <= 1 then [] else ranked[1..Min(K + 1, |ranked|)]
  }

  /** The pairs of `Enumerate(row)` are exactly the pairs of the row. */
  lemma EnumeratePairs(row: seq<real>, p: Pair)
    ensures p in multiset(Enumerate(row)) <==> PairOf(row, p)
  {
    if PairOf(row, p) {
      assert Enumerate(row)[p.index] == p;
    }
  }

  /**
   The ranking is a permutation of `enumerate(row)` in which scores never
   increase and equal scores appear in ascending index order.
   */
  lemma RankIsRankingOf(row: seq<real>)
    ensures multiset(Rank(row)) == multiset(Enumerate(row))
    ensures |Rank(row)| == |row|
    ensures Ranked(Rank(row))
    ensures forall j :: 0 <= j < |Rank(row)| ==> PairOf(row, Rank(row)[j])
  {
    assert |multiset(Rank(row))| == |multiset(Enumerate(row))|;
    forall j | 0 <= j < |Rank(row)| ensures PairOf(row, Rank(row)[j]) {
      EnumeratePairs(row, Rank(row)[j]);
    }
  }

  /** In a ranked sequence the head precedes every other element. */
  lemma HeadPrecedes(s: seq<Pair>, x: Pair)
    requires Ranked(s) && x in s
    ensures x == s[0] || Before(s[0], x)
  {
  }

  /** Two ranked permutations of the same pairs are equal: the ranking is unique. */
  lemma {:induction false} RankedUnique(a: seq<Pair>, b: seq<Pair>)
    requires multiset(a) == multiset(b)
    requires Ranked(a) && Ranked(b)
    ensures a == b
    decreases |a|
  {
    assert |a| == |multiset(a)| == |multiset(b)| == |b|;
    if a != [] {
      RankedHeadsAgree(a, b);
      TailsPermute(a, b);
      RankedUnique(a[1..], b[1..]);
    }
  }

  /** Two ranked permutations of the same pairs start with the same pair. */
  lemma RankedHeadsAgree(a: seq<Pair>, b: seq<Pair>)
    requires a != [] && b != [] && multiset(a) == multiset(b)
    requires Ranked(a) && Ranked(b)
    ensures a[0] == b[0]
  {
    assert a[0] in multiset(b) && b[0] in multiset(a);
    HeadPrecedes(a, b[0]);
    HeadPrecedes(b, a[0]);
  }

  /** Removing a common head from two permutations leaves two permutations. */
  lemma TailsPermute(a: seq<Pair>, b: seq<Pair>)
    requires a != [] && b != [] && multiset(a) == multiset(b) && a[0] == b[0]
    ensures multiset(a[1..]) == multiset(b[1..])
  {
    assert a == [a[0]] + a[1..] && b == [b[0]] + b[1..];
    assert multiset(a[1..]) == multiset(a) - multiset{a[0]};
    assert multiset(b[1..]) == multiset(b) - multiset{b[0]};
  }

  /**
   The stable sort agrees with the order-based definition: any permutation of
   `enumerate(row)` ranked by `Before` is `Rank(row)`.
   */
  lemma RankIsUnique(row: seq<real>, t: seq<Pair>)
    requires multiset(t) == multiset(Enumerate(row))
    requires Ranked(t)
    ensures t == Rank(row)
  {
    RankIsRankingOf(row);
    RankedUnique(t, Rank(row));
  }

  /** `k` is the lowest index holding the row's highest score. */
  predicate IsFirstArgmax(row: seq<real>, k: nat) {
    && k < |row|
    && (forall j :: 0 <= j < |row| ==> row[j] <= row[k])
    && (forall j :: 0 <= j < k ==> row[j] < row[k])
  }

  /** The pair the slice `[1:6]` drops is the first index holding the maximum score. */
  lemma DroppedIsFirstArgmax(row: seq<real>)
    requires |row| > 0
    ensures IsFirstArgmax(row, Rank(row)[0].index)
  {
    RankIsRankingOf(row);
    var r := Rank(row);
    forall j | 0 <= j < |row| ensures Before(r[0], Pair(j, row[j])) || r[0] == Pair(j, row[j]) {
      EnumeratePairs(row, Pair(j, row[j]));
      HeadPrecedes(r, Pair(j, row[j]));
    }
  }

  /**
   Top-K selection: every pair of the row that is neither kept nor the dropped
   first argmax ranks after every kept pair.
   */
  lemma TopNeighboursAreBest(row: seq<real>)
    ensures forall x, i | x in TopNeighbours(row) && 0 <= i < |row|
                          && Pair(i, row[i]) !in TopNeighbours(row) && !IsFirstArgmax(row, i)
              :: Before(x, Pair(i, row[i]))
  {
    var r := Rank(row);
    var hi := Min(K + 1, |r|);
    var top := TopNeighbours(row);
    forall x, i | x in top && 0 <= i < |row| && Pair(i, row[i]) !in top && !IsFirstArgmax(row, i)
      ensures Before(x, Pair(i, row[i]))
    {
      var m := PositionInRank(row, i);
      DroppedIsFirstArgmax(row);
      assert top == r[1..hi];
      assert m != 0;
      forall k | 1 <= k < hi ensures r[k] in top {
        assert top[k - 1] == r[k];
      }
      assert m >= hi;
      RankedPrefixPrecedes(r, hi, m);
    }
  }

  /** Where the pair of column `i` sits in the ranking. */
  lemma PositionInRank(row: seq<real>, i: nat) returns (m: nat)
    requires i < |row|
    ensures m < |Rank(row)| == |row| && Rank(row)[m] == Pair(i, row[i])
  {
    RankIsRankingOf(row);
    EnumeratePairs(row, Pair(i, row[i]));
    assert Pair(i, row[i]) in multiset(Rank(row));
    m :| 0 <= m < |Rank(row)| && Rank(row)[m] == Pair(i, row[i]);
  }

  /** In a ranked sequence, everything before position `hi` precedes the element at `m >= hi`. */
  lemma RankedPrefixPrecedes(r: seq<Pair>, hi: nat, m: nat)
    requires Ranked(r) && 1 <= hi <= m < |r|
    ensures forall x | x in r[1..hi] :: Before(x, r[m])
  {
  }

  /**
   Exactly the top-ranked pair is dropped: the lowest index holding the row's
   maximum never appears among the kept pairs.
   */
  lemma FirstArgmaxNotKept(row: seq<real>, k: nat)
    requires IsFirstArgmax(row, k)
    ensures forall x | x in TopNeighbours(row) :: x.index != k
    ensures Pair(k, row[k]) !in TopNeighbours(row)
  {
    RankIsRankingOf(row);
    DroppedIsFirstArgmax(row);
    var r := Rank(row);
    assert r[0].index == k;
    var top := TopNeighbours(row);
    forall x | x in top ensures x.index != k {
      var j :| 0 <= j < |top| && top[j] == x;
      assert x == r[j + 1];
      assert Before(r[0], r[j + 1]);
    }
  }

  /**
   Self-exclusion under the source's assumption: when the query's own score is
   strictly the highest of its row, the query's index is not among the kept pairs.
   */
  lemma SelfExcludedWhenStrictMax(row: seq<real>, q: nat)
    requires q < |row|
    requires forall j :: 0 <= j < |row| && j != q ==> row[j] < row[q]
    ensures forall x | x in TopNeighbours(row) :: x.index != q
  {
    assert IsFirstArgmax(row, q);
    FirstArgmaxNotKept(row, q);
  }

  /**
   Without that assumption the query can come back: with an equal score at a
   lower index, the lower index is dropped and the query itself is kept.
   */
  lemma TiedSelfIsKept(row: seq<real>)
    requires row == [1.0, 1.0, 0.5]
    ensures Pair(1, 1.0) in TopNeighbours(row)
  {
    RankOfOrderedRow(row);
    assert TopNeighbours(row)[0] == Enumerate(row)[1];
  }

  /** A row whose scores already never increase ranks in index order. */
  lemma RankOfOrderedRow(row: seq<real>)
    requires forall i, j :: 0 <= i < j < |row| ==> row[i] >= row[j]
    ensures Rank(row) == Enumerate(row)
  {
    RankIsUnique(row, Enumerate(row));
  }
}
