/** The three ranking strategies of serve.py. Each yields parallel lists of
    paper ids and scores: `search_rank` by query score, `time_rank` newest
    first, `random_rank` a shuffle with zero scores. */
module Ranking {
  import opened PyText
  import opened Sorting
  import opened Stores
  import opened Query

  /** `order` lists the keys of `m` once each: the iteration order of a
      store, which the store decides. */
  ghost predicate Enumerates<V>(order: seq<string>, m: map<string, V>) {
    Distinct(order) && forall k :: k in m <==> k in order
  }

  // ---------------------------------------------------------------------
  // search_rank

  /** A `(score, pid)` pair of `search_rank`. */
  type Hit = (int, string)

  /** Python's order on `(score, pid)` tuples: score first, then pid. */
  predicate HitLess(a: Hit, b: Hit) {
    a.0 < b.0 || (a.0 == b.0 && StrLess(a.1, b.1))
  }

  lemma HitLessOrder(a: Hit, b: Hit, c: Hit)
    ensures !HitLess(a, a)
    ensures HitLess(a, b) ==> !HitLess(b, a)
    ensures HitLess(a, b) && HitLess(b, c) ==> HitLess(a, c)
    ensures a == b || HitLess(a, b) || HitLess(b, a)
  {
    StrLessIrreflexive(a.1);
    StrLessTotal(a.1, b.1);
    if HitLess(a, b) && HitLess(b, c) && a.0 == b.0 && b.0 == c.0 {
      StrLessTransitive(a.1, b.1, c.1);
    }
  }

  /** Not below is transitive. */
  lemma HitNotLessTransitive(a: Hit, b: Hit, c: Hit)
    requires !HitLess(a, b) && !HitLess(b, c)
    ensures !HitLess(a, c)
  {
    HitLessOrder(a, b, c);
    HitLessOrder(b, a, c);
    HitLessOrder(c, a, b);
    HitLessOrder(b, c, a);
  }

  /** Non-increasing in the tuple order. */
  ghost predicate HitsDescending(s: seq<Hit>) {
    forall i, j :: 0 <= i < j < |s| ==> !HitLess(s[i], s[j])
  }

  /** Strictly decreasing in the tuple order. */
  ghost predicate HitsStrictlyDescending(s: seq<Hit>) {
    forall i, j :: 0 <= i < j < |s| ==> HitLess(s[j], s[i])
  }

  function InsertHit(x: Hit, s: seq<Hit>): (r: seq<Hit>)
    ensures |r| == |s| + 1
    ensures multiset(r) == multiset(s) + multiset{x}
  {
    if s == [] || !HitLess(x, s[0]) then [x] + s
    else
      assert s == [s[0]] + s[1..];
      [s[0]] + InsertHit(x, s[1..])
  }

  lemma {:induction false} InsertHitDescending(x: Hit, s: seq<Hit>)
    requires HitsDescending(s)
    ensures HitsDescending(InsertHit(x, s))
  {
    if s == [] || !HitLess(x, s[0]) {
      var r := [x] + s;
      forall i, j | 0 <= i < j < |r| ensures !HitLess(r[i], r[j]) {
        if i == 0 {
          assert r[j] == s[j - 1];
          if j > 1 { HitNotLessTransitive(x, s[0], s[j - 1]); }
        } else {
          assert r[i] == s[i - 1] && r[j] == s[j - 1];
        }
      }
    } else {
      var q := s[1..];
      InsertHitDescending(x, q);
      var t := InsertHit(x, q);
      assert !HitLess(s[0], t[0]) by {
        if q == [] || !HitLess(x, q[0]) {
          assert t[0] == x;
          HitLessOrder(x, s[0], x);
        } else {
          assert t[0] == q[0] == s[1];
        }
      }
      var r := [s[0]] + t;
      forall i, j | 0 <= i < j < |r| ensures !HitLess(r[i], r[j]) {
        if i == 0 {
          assert r[j] == t[j - 1];
          if j > 1 { HitNotLessTransitive(s[0], t[0], t[j - 1]); }
        } else {
          assert r[i] == t[i - 1] && r[j] == t[j - 1];
        }
      }
    }
  }

  /** `pairs.sort(reverse=True)`: a permutation in non-increasing tuple order. */
  function SortHits(s: seq<Hit>): (r: seq<Hit>)
    ensures |r| == |s|
    ensures multiset(r) == multiset(s)
    ensures HitsDescending(r)
  {
    if s == [] then []
    else
      var t := SortHits(s[1..]);
      InsertHitDescending(s[0], t);
      assert s == [s[0]] + s[1..];
      InsertHit(s[0], t)
  }

  /** Without repeated pairs a non-increasing order is strictly decreasing. */
  lemma DistinctHitsStrict(s: seq<Hit>)
    requires HitsDescending(s) && Distinct(s)
    ensures HitsStrictlyDescending(s)
  {
    forall i, j | 0 <= i < j < |s| ensures HitLess(s[j], s[i]) {
      HitLessOrder(s[i], s[j], s[i]);
    }
  }

  /** The pairs `(scores[i], pids[i])`. */
  function Hits(pids: seq<string>, scores: seq<int>): (r: seq<Hit>)
    requires |pids| == |scores|
    ensures |r| == |pids|
  {
    seq(|pids|, i requires 0 <= i < |pids| => (scores[i], pids[i]))
  }

  /** What `search_rank` returns for the tokens of a query: parallel lists
      holding every paper with a positive score and no other, each with its
      score, ordered by `(score, pid)` from the largest down. */
  ghost predicate IsSearchRanking(pids: seq<string>, scores: seq<int>, pdb: map<string, PaperDoc>, tokens: seq<string>) {
    && |pids| == |scores|
    && (forall i :: 0 <= i < |pids| ==> pids[i] in pdb && scores[i] == Score(pdb[pids[i]], tokens) && scores[i] > 0)
    && (forall pid :: pid in pdb && Score(pdb[pid], tokens) > 0 ==> pid in pids)
    && HitsStrictlyDescending(Hits(pids, scores))
  }

  /** The `(score, pid)` pairs `search_rank` collects before sorting: one
      pair for each paper with a positive score, holding that score. */
  ghost predicate ScoredPairs(pairs: seq<Hit>, pdb: map<string, PaperDoc>, tokens: seq<string>) {
    && (forall k :: 0 <= k < |pairs| ==>
          pairs[k].1 in pdb && pairs[k].0 == Score(pdb[pairs[k].1], tokens) && pairs[k].0 > 0)
    && (forall pid :: pid in pdb && Score(pdb[pid], tokens) > 0 ==>
          exists k :: 0 <= k < |pairs| && pairs[k].1 == pid)
    && Distinct(pairs)
  }

  /** The scoring loop of `search_rank`: visits every item of the store once,
      in whatever order the store yields them, and keeps the positive scores. */
  method ScorePapers(querySplit: seq<string>, pdb: map<string, PaperDoc>) returns (pairs: seq<Hit>)
    ensures ScoredPairs(pairs, pdb, querySplit)
  {
    pairs := [];
    var remaining := pdb.Keys;
    while remaining != {}
      invariant remaining <= pdb.Keys
      invariant forall k :: 0 <= k < |pairs| ==>
        pairs[k].1 in pdb && pairs[k].1 !in remaining
        && pairs[k].0 == Score(pdb[pairs[k].1], querySplit) && pairs[k].0 > 0
      invariant forall pid :: pid in pdb && pid !in remaining && Score(pdb[pid], querySplit) > 0 ==>
        exists k :: 0 <= k < |pairs| && pairs[k].1 == pid
      invariant Distinct(pairs)
      decreases remaining
    {
      var pid :| pid in remaining;
      var p := pdb[pid];
      var score := 0;
      score := score + (if p.authors != [] then 10 * MatchU(querySplit, Join(" ", p.authors)) else 0);
      score := score + (if p.title != [] then 20 * MatchU(querySplit, p.title) else 0);
      score := score + Match(querySplit, p.summary);
      assert score == Score(p, querySplit);
      if score > 0 {
        ghost var before := pairs;
        pairs := pairs + [(score, pid)];
        assert pairs[|before|].1 == pid;
        forall i, j | 0 <= i < j < |pairs| ensures pairs[i] != pairs[j] {
          assert pairs[i] == before[i];
          if j < |before| { assert pairs[j] == before[j]; }
        }
        assert forall k :: 0 <= k < |before| ==> pairs[k] == before[k];
      }
      remaining := remaining - {pid};
    }
  }

  function PidsOf(s: seq<Hit>): (r: seq<string>)
    ensures |r| == |s| && forall i :: 0 <= i < |s| ==> r[i] == s[i].1
  {
    seq(|s|, i requires 0 <= i < |s| => s[i].1)
  }

  function ScoresOf(s: seq<Hit>): (r: seq<int>)
    ensures |r| == |s| && forall i :: 0 <= i < |s| ==> r[i] == s[i].0
  {
    seq(|s|, i requires 0 <= i < |s| => s[i].0)
  }

  /** An element of a permutation is an element of the original. */
  lemma PermutationMember<T>(s: seq<T>, r: seq<T>, i: nat)
    requires multiset(s) == multiset(r) && i < |r|
    ensures r[i] in s
  {
    assert r[i] in multiset(r);
  }

  /** Every collected pair shows up in the sorted ids. */
  lemma SortedHasPairs(pairs: seq<Hit>, sorted: seq<Hit>, k: nat)
    requires multiset(pairs) == multiset(sorted) && k < |pairs|
    ensures pairs[k].1 in PidsOf(sorted)
  {
    assert pairs[k] in multiset(sorted);
    var i :| 0 <= i < |sorted| && sorted[i] == pairs[k];
    assert PidsOf(sorted)[i] == pairs[k].1;
  }

  /** Sorting the collected pairs and splitting them into ids and scores
      gives a search ranking. */
  lemma RankingFromPairs(pairs: seq<Hit>, pdb: map<string, PaperDoc>, tokens: seq<string>)
    requires ScoredPairs(pairs, pdb, tokens)
    ensures IsSearchRanking(PidsOf(SortHits(pairs)), ScoresOf(SortHits(pairs)), pdb, tokens)
  {
    var sorted := SortHits(pairs);
    var pids, scores := PidsOf(sorted), ScoresOf(sorted);
    assert Hits(pids, scores) == sorted;
    assert HitsStrictlyDescending(sorted) by {
      DistinctPermutation(pairs, sorted);
      DistinctHitsStrict(sorted);
    }
    assert forall i :: 0 <= i < |pids| ==>
      pids[i] in pdb && scores[i] == Score(pdb[pids[i]], tokens) && scores[i] > 0 by {
      forall i | 0 <= i < |sorted| ensures sorted[i] in pairs {
        PermutationMember(pairs, sorted, i);
      }
    }
    assert forall pid :: pid in pdb && Score(pdb[pid], tokens) > 0 ==> pid in pids by {
      forall pid | pid in pdb && Score(pdb[pid], tokens) > 0 ensures pid in pids {
        var k :| 0 <= k < |pairs| && pairs[k].1 == pid;
        SortedHasPairs(pairs, sorted, k);
      }
    }
  }

  /** `search_rank(q)`: the empty query ranks nothing; otherwise every paper
      whose score is positive, highest `(score, pid)` first. */
  method SearchRank(q: string, pdb: map<string, PaperDoc>) returns (pids: seq<string>, scores: seq<int>)
    ensures q == [] ==> pids == [] && scores == []
    ensures IsSearchRanking(pids, scores, pdb, Tokens(q))
  {
    if q == [] {
      TokensShape(q);
      return [], [];
    }
    var querySplit := Tokens(q);
    var pairs := ScorePapers(querySplit, pdb);
    var sorted := SortHits(pairs);
    RankingFromPairs(pairs, pdb, querySplit);
    pids := PidsOf(sorted);
    scores := ScoresOf(sorted);
  }

  /** Two strictly decreasing sequences of pairs with the same elements are
      the same sequence. */
  lemma {:induction false} StrictHitsUnique(a: seq<Hit>, b: seq<Hit>)
    requires HitsStrictlyDescending(a) && HitsStrictlyDescending(b)
    requires forall h :: h in a <==> h in b
    ensures a == b
    decreases |a|
  {
    SameElementsEmpty(a, b);
    if a != [] && b != [] {
      if a[0] != b[0] {
        assert a[0] in b && b[0] in a;
        var j :| 0 <= j < |b| && b[j] == a[0];
        var i :| 0 <= i < |a| && a[i] == b[0];
        HitLessOrder(a[0], b[0], a[0]);
        assert false;
      }
      forall h ensures h in a[1..] <==> h in b[1..] {
        if h in a[1..] {
          var m :| 0 <= m < |a[1..]| && a[1..][m] == h;
          assert a[m + 1] == h;
          HitLessOrder(a[0], a[0], a[0]);
          assert h != a[0];
          assert h in b;
          var n :| 0 <= n < |b| && b[n] == h;
          assert n != 0;
          assert b[1..][n - 1] == h;
        }
        if h in b[1..] {
          var m :| 0 <= m < |b[1..]| && b[1..][m] == h;
          assert b[m + 1] == h;
          HitLessOrder(b[0], b[0], b[0]);
          assert h != b[0];
          assert h in a;
          var n :| 0 <= n < |a| && a[n] == h;
          assert n != 0;
          assert a[1..][n - 1] == h;
        }
      }
      var a', b' := a[1..], b[1..];
      assert HitsStrictlyDescending(a') by {
        forall i, j | 0 <= i < j < |a'| ensures HitLess(a'[j], a'[i]) { assert a'[i] == a[i + 1] && a'[j] == a[j + 1]; }
      }
      assert HitsStrictlyDescending(b') by {
        forall i, j | 0 <= i < j < |b'| ensures HitLess(b'[j], b'[i]) { assert b'[i] == b[i + 1] && b'[j] == b[j + 1]; }
      }
      StrictHitsUnique(a', b');
      assert a == [a[0]] + a' && b == [b[0]] + b';
    }
  }

  /** Sequences with the same elements are both empty or both not. */
  lemma SameElementsEmpty<T>(a: seq<T>, b: seq<T>)
    requires forall h :: h in a <==> h in b
    ensures a == [] <==> b == []
  {
    if a != [] { assert a[0] in b; }
    if b != [] { assert b[0] in a; }
  }

  /** A pair of one search result is a pair of any other for the same
      store and tokens. */
  lemma HitOfOther(pids1: seq<string>, scores1: seq<int>, pids2: seq<string>, scores2: seq<int>,
                   pdb: map<string, PaperDoc>, tokens: seq<string>, h: Hit)
    requires IsSearchRanking(pids1, scores1, pdb, tokens)
    requires IsSearchRanking(pids2, scores2, pdb, tokens)
    requires h in Hits(pids1, scores1)
    ensures h in Hits(pids2, scores2)
  {
    var a, b := Hits(pids1, scores1), Hits(pids2, scores2);
    var i :| 0 <= i < |a| && a[i] == h;
    assert pids1[i] in pids2;
    var j :| 0 <= j < |pids2| && pids2[j] == pids1[i];
    assert b[j] == h;
  }

  /** The search result is determined by the store and the query alone:
      the order in which the store yields its items cannot change it. */
  lemma SearchRankingUnique(pids1: seq<string>, scores1: seq<int>, pids2: seq<string>, scores2: seq<int>,
                            pdb: map<string, PaperDoc>, tokens: seq<string>)
    requires IsSearchRanking(pids1, scores1, pdb, tokens)
    requires IsSearchRanking(pids2, scores2, pdb, tokens)
    ensures pids1 == pids2 && scores1 == scores2
  {
    var a, b := Hits(pids1, scores1), Hits(pids2, scores2);
    forall h ensures h in a <==> h in b {
      if h in a { HitOfOther(pids1, scores1, pids2, scores2, pdb, tokens, h); }
      if h in b { HitOfOther(pids2, scores2, pids1, scores1, pdb, tokens, h); }
    }
    StrictHitsUnique(a, b);
    assert forall i :: 0 <= i < |pids1| ==> pids1[i] == a[i].1 && scores1[i] == a[i].0;
    assert forall i :: 0 <= i < |pids2| ==> pids2[i] == b[i].1 && scores2[i] == b[i].0;
  }

  /** Every pid of a search result appears once. */
  lemma SearchRankingDistinct(pids: seq<string>, scores: seq<int>, pdb: map<string, PaperDoc>, tokens: seq<string>)
    requires IsSearchRanking(pids, scores, pdb, tokens)
    ensures Distinct(pids)
  {
    var h := Hits(pids, scores);
    forall i, j | 0 <= i < j < |pids| ensures pids[i] != pids[j] {
      assert HitLess(h[j], h[i]);
      HitLessOrder(h[j], h[i], h[j]);
    }
  }

  /** No tokens, no results: every paper then scores 0. */
  lemma RankingWithoutTokens(pids: seq<string>, scores: seq<int>, pdb: map<string, PaperDoc>)
    requires IsSearchRanking(pids, scores, pdb, [])
    ensures pids == [] && scores == []
  {
    assert forall p: PaperDoc :: Score(p, []) == 0;
    assert IsSearchRanking([], [], pdb, []);
    SearchRankingUnique(pids, scores, [], [], pdb, []);
  }

  /** A query made only of deleted characters and whitespace gives an empty
      result. */
  lemma SearchWithoutTokens(q: string, pids: seq<string>, scores: seq<int>, pdb: map<string, PaperDoc>)
    requires forall i :: 0 <= i < |q| ==> Allowed(q[i]) ==> IsSpace(q[i])
    requires IsSearchRanking(pids, scores, pdb, Tokens(q))
    ensures pids == [] && scores == []
  {
    TokensWithoutWords(q);
    RankingWithoutTokens(pids, scores, pdb);
  }

  // ---------------------------------------------------------------------
  // time_rank

  function MetaTime(kv: (string, MetaDoc)): int { kv.1.time }

  /** `mdb.items()` in the store's iteration order. */
  function Items(mdb: map<string, MetaDoc>, order: seq<string>): (r: seq<(string, MetaDoc)>)
    requires forall k :: k in order ==> k in mdb
    ensures |r| == |order|
  {
    seq(|order|, i requires 0 <= i < |order| => (order[i], mdb[order[i]]))
  }

  /** Seconds in a day, `60*60*24`. */
  const SecondsPerDay := 86400

  /** Days elapsed from `time` to `tnow`, both in seconds. */
  function DaysSince(tnow: real, time: int): real {
    (tnow - time as real) / SecondsPerDay as real
  }

  /** `time_rank` with the clock reading `tnow`: the items sorted by `_time`
      newest first (ties in store order), and for each the days elapsed
      since it. */
  function TimeRank(mdb: map<string, MetaDoc>, order: seq<string>, tnow: real): (r: (seq<string>, seq<real>))
    requires forall k :: k in order ==> k in mdb
  {
    var ms := SortDesc(Items(mdb, order), MetaTime);
    (seq(|ms|, i requires 0 <= i < |ms| => ms[i].0), seq(|ms|, i requires 0 <= i < |ms| => DaysSince(tnow, ms[i].1.time)))
  }

  /** The sorted items are the store's entries, each key once. */
  lemma SortedItems(mdb: map<string, MetaDoc>, order: seq<string>)
    requires Enumerates(order, mdb)
    ensures var ms := SortDesc(Items(mdb, order), MetaTime);
      && (forall i :: 0 <= i < |ms| ==> ms[i].0 in mdb && ms[i].1 == mdb[ms[i].0])
      && Distinct(ms)
      && (forall k :: k in mdb ==> exists i :: 0 <= i < |ms| && ms[i].0 == k)
  {
    var items := Items(mdb, order);
    var ms := SortDesc(items, MetaTime);
    ItemsOfStore(mdb, order);
    forall i | 0 <= i < |ms| ensures ms[i].0 in mdb && ms[i].1 == mdb[ms[i].0] {
      PermutationMember(items, ms, i);
    }
    DistinctPermutation(items, ms);
    forall k | k in mdb ensures exists i :: 0 <= i < |ms| && ms[i].0 == k {
      var a :| 0 <= a < |order| && order[a] == k;
      PermutationMember(ms, items, a);
      var i :| 0 <= i < |ms| && ms[i] == items[a];
    }
  }

  /** The unsorted items are the store's entries in `order`, each key once. */
  lemma ItemsOfStore(mdb: map<string, MetaDoc>, order: seq<string>)
    requires Enumerates(order, mdb)
    ensures var items := Items(mdb, order);
      && (forall p :: p in items ==> p.0 in mdb && p.1 == mdb[p.0])
      && Distinct(items)
  {
    var items := Items(mdb, order);
    forall i, j | 0 <= i < j < |items| ensures items[i] != items[j] {
      assert items[i].0 == order[i] && items[j].0 == order[j];
    }
  }

  /** `time_rank` lists every key of the store exactly once, with one score
      per key. */
  lemma TimeRankKeys(mdb: map<string, MetaDoc>, order: seq<string>, tnow: real)
    requires Enumerates(order, mdb)
    ensures var (pids, scores) := TimeRank(mdb, order, tnow);
      && |pids| == |scores| == |order|
      && Distinct(pids)
      && (forall k :: k in mdb <==> k in pids)
  {
    var ms := SortDesc(Items(mdb, order), MetaTime);
    var (pids, scores) := TimeRank(mdb, order, tnow);
    SortedItems(mdb, order);
    assert forall i :: 0 <= i < |ms| ==> pids[i] == ms[i].0;
    forall i, j | 0 <= i < j < |pids| ensures pids[i] != pids[j] {
      assert ms[i] != ms[j];
    }
    forall k | k in mdb ensures k in pids {
      var i :| 0 <= i < |ms| && ms[i].0 == k;
      assert pids[i] == k;
    }
  }

  /** `time_rank` puts the newest `_time` first, and each score is the days
      elapsed since that paper's time. */
  lemma TimeRankOrder(mdb: map<string, MetaDoc>, order: seq<string>, tnow: real)
    requires Enumerates(order, mdb)
    ensures var (pids, scores) := TimeRank(mdb, order, tnow);
      && |pids| == |scores|
      && (forall i :: 0 <= i < |pids| ==> pids[i] in mdb && scores[i] == DaysSince(tnow, mdb[pids[i]].time))
      && (forall i, j :: 0 <= i < j < |pids| ==> mdb[pids[i]].time >= mdb[pids[j]].time)
  {
    var ms := SortDesc(Items(mdb, order), MetaTime);
    var (pids, scores) := TimeRank(mdb, order, tnow);
    SortedItems(mdb, order);
    assert forall i :: 0 <= i < |ms| ==> pids[i] == ms[i].0 && MetaTime(ms[i]) == mdb[pids[i]].time;
  }

  /** The `time_rank` scores never decrease along the list. */
  lemma TimeRankScoresRise(mdb: map<string, MetaDoc>, order: seq<string>, tnow: real)
    requires Enumerates(order, mdb)
    ensures var (pids, scores) := TimeRank(mdb, order, tnow);
      forall i, j :: 0 <= i < j < |scores| ==> scores[i] <= scores[j]
  {
    var (pids, scores) := TimeRank(mdb, order, tnow);
    TimeRankOrder(mdb, order, tnow);
    forall i, j | 0 <= i < j < |scores| ensures scores[i] <= scores[j] {
      DaysSinceAntitone(tnow, mdb[pids[i]].time, mdb[pids[j]].time);
    }
  }

  /** An earlier time is at least as many days ago. */
  lemma DaysSinceAntitone(tnow: real, t1: int, t2: int)
    requires t1 >= t2
    ensures DaysSince(tnow, t1) <= DaysSince(tnow, t2)
  {
  }

  // ---------------------------------------------------------------------
  // random_rank

  /** Exchanges the elements at `i` and `j`. */
  function Swap<T>(s: seq<T>, i: nat, j: nat): (r: seq<T>)
    requires i < |s| && j < |s|
    ensures |r| == |s|
  {
    s[i := s[j]][j := s[i]]
  }

  /** `random.shuffle` as specified by its algorithm: for `i` from the last
      index down to 1, swap position `i` with position `rand(i) % (i + 1)`;
      `rand` stands for the generator's draws. */
  function FisherYates<T>(s: seq<T>, i: int, rand: nat -> nat): (r: seq<T>)
    requires i < |s|
    ensures |r| == |s|
    decreases i
  {
    if i <= 0 then s else FisherYates(Swap(s, i, rand(i) % (i + 1)), i - 1, rand)
  }

  lemma {:induction false} FisherYatesPermutes<T>(s: seq<T>, i: int, rand: nat -> nat)
    requires i < |s|
    ensures multiset(FisherYates(s, i, rand)) == multiset(s)
    decreases i
  {
    if i > 0 {
      var j := rand(i) % (i + 1);
      SwapPermutes(s, i, j);
      FisherYatesPermutes(Swap(s, i, j), i - 1, rand);
    }
  }

  lemma SwapPermutes<T>(s: seq<T>, i: nat, j: nat)
    requires i < |s| && j < |s|
    ensures multiset(Swap(s, i, j)) == multiset(s)
  {
    if i != j {
      var t := s[i := s[j]];
      assert multiset(t) == multiset(s) - multiset{s[i]} + multiset{s[j]};
      assert multiset(t[j := s[i]]) == multiset(t) - multiset{t[j]} + multiset{s[i]};
    }
  }

  /** `shuffle(x)` on a list held in an array. */
  method Shuffle(a: array<string>, rand: nat -> nat)
    modifies a
    ensures a[..] == FisherYates(old(a[..]), a.Length - 1, rand)
  {
    var i := a.Length - 1;
    while i > 0
      invariant -1 <= i < a.Length
      invariant i <= 0 ==> i == a.Length - 1 || i == 0
      invariant FisherYates(a[..], i, rand) == FisherYates(old(a[..]), a.Length - 1, rand)
      decreases i
    {
      var j := rand(i) % (i + 1);
      ghost var before := a[..];
      a[i], a[j] := a[j], a[i];
      assert a[..] == Swap(before, i, j);
      i := i - 1;
    }
  }

  /** `random_rank`: the store's keys, shuffled, each with score 0. */
  method RandomRank(mdb: map<string, MetaDoc>, order: seq<string>, rand: nat -> nat)
    returns (pids: seq<string>, scores: seq<int>)
    requires Enumerates(order, mdb)
    ensures pids == FisherYates(order, |order| - 1, rand)
    ensures multiset(pids) == multiset(order)
    ensures Distinct(pids) && forall k :: k in mdb <==> k in pids
    ensures |scores| == |pids| && forall i :: 0 <= i < |scores| ==> scores[i] == 0
  {
    var a := new string[|order|](i requires 0 <= i < |order| => order[i]);
    assert a[..] == order;
    Shuffle(a, rand);
    pids := a[..];
    scores := seq(|pids|, _ => 0);
    FisherYatesPermutes(order, |order| - 1, rand);
    DistinctPermutation(order, pids);
    forall k ensures k in pids <==> k in order {
      assert k in pids <==> k in multiset(pids);
    }
  }
}
