/** The index page of serve.py: how the request arguments choose a ranking,
    how the optional recency filter narrows it, and how the result is cut
    into pages of `RET_NUM` papers. */
module Request {
  import opened PyText
  import opened Sorting
  import opened Stores
  import opened Query
  import opened Ranking

  /** `RET_NUM`, the number of papers on one page. */
  const RetNum: nat := 25

  /** The days used when the recency filter cannot be read as an integer. */
  const FallbackDays := 20000

  /** The query-string arguments of the page; `None` when absent. */
  datatype Args = Args(rank: Option<string>, q: Option<string>, timeFilter: Option<string>, pageNumber: Option<string>)

  /** `request.args.get(name, default)` */
  function ArgOr(arg: Option<string>, default: string): string {
    if arg.Some? then arg.value else default
  }

  // ---------------------------------------------------------------------
  // Choosing the ranking

  predicate IsRankName(rank: string) {
    rank == "search" || rank == "time" || rank == "random"
  }

  /** The ranking actually used: a non-empty query always searches; without
      one a known rank name is kept and anything else becomes "time". The
      result is always a known name, so the final `ValueError` branch of the
      dispatch cannot be reached. */
  function ResolveRank(rank: string, q: string): (r: string)
    ensures IsRankName(r)
    ensures q != [] ==> r == "search"
    ensures q == [] && IsRankName(rank) ==> r == rank
    ensures q == [] && !IsRankName(rank) ==> r == "time"
  {
    var r := if IsRankName(rank) then rank else "time";
    if q != [] then "search" else r
  }

  // ---------------------------------------------------------------------
  // Reading the numeric arguments

  /** The recency filter in days: its integer value, or `FallbackDays` when
      `int()` rejects it (the retry through `round` fails on a string too). */
  function FilterDays(s: string): (d: int)
    ensures ParseInt(s).Some? ==> d == ParseInt(s).value
    ensures ParseInt(s).None? ==> d == FallbackDays
  {
    match ParseInt(s)
    case Some(v) => v
    case None => FallbackDays
  }

  /** The requested page: at least 1, and 1 when the argument is not an
      integer. */
  function PageNumber(s: string): (p: int)
    ensures p >= 1
    ensures ParseInt(s).Some? && ParseInt(s).value >= 1 ==> p == ParseInt(s).value
    ensures ParseInt(s).Some? && ParseInt(s).value < 1 ==> p == 1
    ensures ParseInt(s).None? ==> p == 1
  {
    match ParseInt(s)
    case Some(v) => if v < 1 then 1 else v
    case None => 1
  }

  /** A written number of days is taken as it is. */
  lemma FilterDaysShow(n: nat)
    ensures FilterDays(Show(n)) == n
  {
    ParseIntShow(n);
  }

  /** A filter holding a letter falls back to `FallbackDays`. */
  lemma FilterDaysWithLetter(s: string, k: nat)
    requires k < |s| && IsLetter(s[k])
    ensures FilterDays(s) == FallbackDays
  {
    ParseIntRejectsLetter(s, k);
  }

  /** A written page number of at least 1 is taken as it is. */
  lemma PageNumberShow(n: nat)
    requires n >= 1
    ensures PageNumber(Show(n)) == n
  {
    ParseIntShow(n);
  }

  /** Negative page numbers give the first page. */
  lemma PageNumberNegative(n: nat)
    ensures PageNumber("-" + Show(n)) == 1
  {
    ParseIntShowNegative(n);
  }

  /** A page argument holding a letter gives the first page. */
  lemma PageNumberWithLetter(s: string, k: nat)
    requires k < |s| && IsLetter(s[k])
    ensures PageNumber(s) == 1
  {
    ParseIntRejectsLetter(s, k);
  }

  // ---------------------------------------------------------------------
  // The recency filter

  /** `(tnow - _time) < deltat`, with `tnow` the clock in seconds. */
  predicate Recent(time: int, tnow: real, deltat: int) {
    tnow - time as real < deltat as real
  }

  /** `idx` lists positions below `n` in increasing order. */
  ghost predicate Increasing(idx: seq<nat>, n: nat) {
    (forall j :: 0 <= j < |idx| ==> idx[j] < n)
    && (forall a, b :: 0 <= a < b < |idx| ==> idx[a] < idx[b])
  }

  /** The `keep` list of the filter over the first `n` pids: exactly the
      positions whose paper is recent, in increasing order. */
  function Keep(pids: seq<string>, kv: map<string, MetaDoc>, tnow: real, deltat: int, n: nat): (keep: seq<nat>)
    requires n <= |pids|
    requires forall i :: 0 <= i < |pids| ==> pids[i] in kv
    ensures Increasing(keep, n)
    ensures forall j :: 0 <= j < |keep| ==> Recent(kv[pids[keep[j]]].time, tnow, deltat)
    ensures forall i :: 0 <= i < n && Recent(kv[pids[i]].time, tnow, deltat) ==> i in keep
    decreases n
  {
    if n == 0 then []
    else
      var prev := Keep(pids, kv, tnow, deltat, n - 1);
      if Recent(kv[pids[n - 1]].time, tnow, deltat) then prev + [n - 1] else prev
  }

  /** `[s[i] for i in idx]` */
  function Select<T>(s: seq<T>, idx: seq<nat>): (r: seq<T>)
    requires forall j :: 0 <= j < |idx| ==> idx[j] < |s|
    ensures |r| == |idx|
  {
    seq(|idx|, j requires 0 <= j < |idx| => s[idx[j]])
  }

  /** The first pid the store of metadata does not hold, if any: the one on
      which `kv[pid]` raises `KeyError`. */
  function FirstMissing(pids: seq<string>, kv: map<string, MetaDoc>): (r: Option<nat>)
    ensures r.None? ==> forall i :: 0 <= i < |pids| ==> pids[i] in kv
    ensures r.Some? ==> (r.value < |pids| && pids[r.value] !in kv
                         && forall i :: 0 <= i < r.value ==> pids[i] in kv)
    decreases |pids|
  {
    if pids == [] then None
    else if pids[0] !in kv then Some(0)
    else match FirstMissing(pids[1..], kv)
      case None => None
      case Some(i) => Some(i + 1)
  }

  /** What the page shows: the ids with their weights, or the `KeyError`
      that aborts the request. */
  datatype Response = Listing(pids: seq<string>, weights: seq<real>) | KeyError(key: string)

  /** The lists `ps`, `ws` are `pids`, `weights` with some positions dropped
      and the order of the rest kept, the same positions in both. */
  ghost predicate Narrowed(ps: seq<string>, ws: seq<real>, pids: seq<string>, weights: seq<real>) {
    |pids| == |weights|
    && exists idx :: Increasing(idx, |pids|) && ps == Select(pids, idx) && ws == Select(weights, idx)
  }

  /** The `if opt_time_filter:` block: no filter keeps the lists; otherwise
      a pid the metadata store lacks raises `KeyError`, and else exactly the
      papers younger than the filter's days survive, in their order and
      still paired with their weights. */
  function TimeFilter(pids: seq<string>, weights: seq<real>, filter: string, kv: map<string, MetaDoc>, tnow: real): (r: Response)
    requires |pids| == |weights|
    ensures filter == [] ==> r == Listing(pids, weights)
    ensures r.KeyError? <==> filter != [] && exists i :: 0 <= i < |pids| && pids[i] !in kv
    ensures r.KeyError? ==> r.key in pids && r.key !in kv
    ensures r.Listing? ==> Narrowed(r.pids, r.weights, pids, weights)
    ensures r.Listing? && filter != [] ==>
      (forall j :: 0 <= j < |r.pids| ==>
         r.pids[j] in kv && Recent(kv[r.pids[j]].time, tnow, FilterDays(filter) * SecondsPerDay))
      && (forall i :: 0 <= i < |pids| && Recent(kv[pids[i]].time, tnow, FilterDays(filter) * SecondsPerDay) ==>
         pids[i] in r.pids)
  {
    if filter == [] then
      assert Listing(pids, weights).pids == Select(pids, seq(|pids|, i => i));
      assert Listing(pids, weights).weights == Select(weights, seq(|pids|, i => i));
      Listing(pids, weights)
    else match FirstMissing(pids, kv)
      case Some(i) => KeyError(pids[i])
      case None =>
        var deltat := FilterDays(filter) * SecondsPerDay;
        var keep := Keep(pids, kv, tnow, deltat, |pids|);
        KeptListing(pids, weights, kv, tnow, deltat);
        Listing(Select(pids, keep), Select(weights, keep))
  }

  /** The lists the filter keeps are narrowed from the input, hold only
      recent papers, and hold every recent one. */
  lemma KeptListing(pids: seq<string>, weights: seq<real>, kv: map<string, MetaDoc>, tnow: real, deltat: int)
    requires |pids| == |weights|
    requires forall i :: 0 <= i < |pids| ==> pids[i] in kv
    ensures var keep := Keep(pids, kv, tnow, deltat, |pids|);
      var ps := Select(pids, keep);
      && Narrowed(ps, Select(weights, keep), pids, weights)
      && (forall j :: 0 <= j < |ps| ==> ps[j] in kv && Recent(kv[ps[j]].time, tnow, deltat))
      && (forall i :: 0 <= i < |pids| && Recent(kv[pids[i]].time, tnow, deltat) ==> pids[i] in ps)
  {
    var keep := Keep(pids, kv, tnow, deltat, |pids|);
    var ps := Select(pids, keep);
    forall i | 0 <= i < |pids| && Recent(kv[pids[i]].time, tnow, deltat) ensures pids[i] in ps {
      var j :| 0 <= j < |keep| && keep[j] == i;
      assert ps[j] == pids[i];
    }
  }

  // ---------------------------------------------------------------------
  // Pagination

  function Min(a: int, b: int): int { if a < b then a else b }

  /** `s[start_index:end_index]` for page `page`: the slice starting at
      `(page - 1) * RetNum`, at most `RetNum` long, empty past the end. */
  function Paginate<T>(s: seq<T>, page: int): (r: seq<T>)
    requires page >= 1
    ensures |r| <= RetNum
    ensures |r| == (if (page - 1) * RetNum >= |s| then 0 else Min(RetNum, |s| - (page - 1) * RetNum))
    ensures forall j :: 0 <= j < |r| ==> r[j] == s[(page - 1) * RetNum + j]
  {
    var start := (page - 1) * RetNum;
    if start >= |s| then [] else s[start..Min(start + RetNum, |s|)]
  }

  /** Every element is shown on a page: element `i` is entry `i % RetNum`
      of page `i / RetNum + 1`. */
  lemma PageOf<T>(s: seq<T>, i: nat)
    requires i < |s|
    ensures var p := i / RetNum + 1;
      i % RetNum < |Paginate(s, p)| && Paginate(s, p)[i % RetNum] == s[i]
  {
    var p := i / RetNum + 1;
    assert (p - 1) * RetNum + i % RetNum == i;
  }

  /** ... and on no other: entry `j` of page `page` is element
      `(page - 1) * RetNum + j`, which belongs to that page alone. */
  lemma PageOnlyOne<T>(s: seq<T>, page: int, j: nat)
    requires page >= 1 && j < |Paginate(s, page)|
    ensures var i := (page - 1) * RetNum + j;
      i < |s| && i / RetNum + 1 == page && i % RetNum == j
  {
    var i := (page - 1) * RetNum + j;
    assert j < RetNum;
  }

  /** Pages past the last element are empty. */
  lemma PageBeyondEnd<T>(s: seq<T>, page: int)
    requires page >= 1 && (page - 1) * RetNum >= |s|
    ensures Paginate(s, page) == []
  {
  }

  /** The first page of 30 papers shows the first 25; the second shows the
      last 5. */
  lemma PaginateThirty(s: seq<int>)
    requires |s| == 30
    ensures Paginate(s, 1) == s[..25]
    ensures Paginate(s, 2) == s[25..]
    ensures Paginate(s, 3) == []
  {
  }

  /** The part of the page after ranking: the recency filter, then the page
      the arguments ask for, cut from ids and weights alike. */
  function Finish(pids: seq<string>, weights: seq<real>, filter: string, pageArg: string,
                  kv: map<string, MetaDoc>, tnow: real): (r: Response)
    requires |pids| == |weights|
    ensures r.KeyError? <==> TimeFilter(pids, weights, filter, kv, tnow).KeyError?
    ensures r.KeyError? ==> r == TimeFilter(pids, weights, filter, kv, tnow)
    ensures r.Listing? ==> |r.pids| == |r.weights| <= RetNum
    ensures r.Listing? ==> var f := TimeFilter(pids, weights, filter, kv, tnow);
      r.pids == Paginate(f.pids, PageNumber(pageArg)) && r.weights == Paginate(f.weights, PageNumber(pageArg))
  {
    match TimeFilter(pids, weights, filter, kv, tnow)
    case KeyError(k) => KeyError(k)
    case Listing(ps, ws) =>
      assert |ps| == |ws| by {
        var idx :| Increasing(idx, |pids|) && ps == Select(pids, idx) && ws == Select(weights, idx);
      }
      var page := PageNumber(pageArg);
      Listing(Paginate(ps, page), Paginate(ws, page))
  }

  /** Where page `page` of a list of length `len` begins and ends. */
  function PageStart(len: nat, page: int): nat
    requires page >= 1
  {
    Min((page - 1) * RetNum, len)
  }

  function PageEnd(len: nat, page: int): nat
    requires page >= 1
  {
    Min(PageStart(len, page) + RetNum, len)
  }

  lemma PaginateIsSlice<T>(s: seq<T>, page: int)
    requires page >= 1
    ensures PageStart(|s|, page) <= PageEnd(|s|, page) <= |s|
    ensures Paginate(s, page) == s[PageStart(|s|, page)..PageEnd(|s|, page)]
  {
  }

  lemma IncreasingSlice(idx: seq<nat>, n: nat, a: nat, b: nat)
    requires Increasing(idx, n) && a <= b <= |idx|
    ensures Increasing(idx[a..b], n)
  {
    var t := idx[a..b];
    assert forall j :: 0 <= j < |t| ==> t[j] == idx[a + j];
  }

  lemma SelectSlice<T>(s: seq<T>, idx: seq<nat>, a: nat, b: nat)
    requires forall j :: 0 <= j < |idx| ==> idx[j] < |s|
    requires a <= b <= |idx|
    ensures Select(s, idx)[a..b] == Select(s, idx[a..b])
  {
  }

  /** Cutting a page out of a narrowed ranking narrows it further, still
      in the same positions for ids and weights. */
  lemma PaginateNarrows(ps: seq<string>, ws: seq<real>, pids: seq<string>, weights: seq<real>, page: int)
    requires page >= 1 && Narrowed(ps, ws, pids, weights)
    ensures Narrowed(Paginate(ps, page), Paginate(ws, page), pids, weights)
  {
    var idx :| Increasing(idx, |pids|) && ps == Select(pids, idx) && ws == Select(weights, idx);
    var a, b := PageStart(|idx|, page), PageEnd(|idx|, page);
    PaginateIsSlice(ps, page);
    PaginateIsSlice(ws, page);
    IncreasingSlice(idx, |pids|, a, b);
    SelectSlice(pids, idx, a, b);
    SelectSlice(weights, idx, a, b);
    var sub := idx[a..b];
    assert Paginate(ps, page) == Select(pids, sub) && Paginate(ws, page) == Select(weights, sub);
  }

  /** The page shows a part of the ranking in its order, each id with its
      own weight. */
  lemma FinishNarrows(pids: seq<string>, weights: seq<real>, filter: string, pageArg: string,
                      kv: map<string, MetaDoc>, tnow: real)
    requires |pids| == |weights|
    ensures var r := Finish(pids, weights, filter, pageArg, kv, tnow);
      r.Listing? ==> Narrowed(r.pids, r.weights, pids, weights)
  {
    var f := TimeFilter(pids, weights, filter, kv, tnow);
    if f.Listing? {
      PaginateNarrows(f.pids, f.weights, pids, weights, PageNumber(pageArg));
    }
  }

  /** `[float(x) for x in xs]` */
  function Reals(xs: seq<int>): (r: seq<real>)
    ensures |r| == |xs| && forall i :: 0 <= i < |xs| ==> r[i] == xs[i] as real
  {
    seq(|xs|, i requires 0 <= i < |xs| => xs[i] as real)
  }

  /** The index page. `order` is the iteration order of the metadata store,
      `rand` the shuffle's draws, `tnowRank` and `tnowFilter` the two clock
      readings taken by `time_rank` and by the recency filter. The returned
      ranking is the one the chosen strategy promises, and the response is
      that ranking filtered and paginated. */
  method Index(args: Args, pdb: map<string, PaperDoc>, mdb: map<string, MetaDoc>, order: seq<string>,
               rand: nat -> nat, tnowRank: real, tnowFilter: real)
    returns (pids: seq<string>, weights: seq<real>, resp: Response)
    requires Enumerates(order, mdb)
    ensures |pids| == |weights|
    ensures var q := ArgOr(args.q, "");
      ResolveRank(ArgOr(args.rank, "time"), q) == "search" ==>
        exists scores :: IsSearchRanking(pids, scores, pdb, Tokens(q)) && weights == Reals(scores)
    ensures ResolveRank(ArgOr(args.rank, "time"), ArgOr(args.q, "")) == "time" ==>
      (pids, weights) == TimeRank(mdb, order, tnowRank)
    ensures ResolveRank(ArgOr(args.rank, "time"), ArgOr(args.q, "")) == "random" ==>
      pids == FisherYates(order, |order| - 1, rand) && weights == Reals(seq(|pids|, _ => 0))
    ensures resp == Finish(pids, weights, ArgOr(args.timeFilter, ""), ArgOr(args.pageNumber, "1"), mdb, tnowFilter)
  {
    var q := ArgOr(args.q, "");
    var rank := ResolveRank(ArgOr(args.rank, "time"), q);
    if rank == "search" {
      var scores;
      pids, scores := SearchRank(q, pdb);
      weights := Reals(scores);
    } else if rank == "time" {
      var ranked := TimeRank(mdb, order, tnowRank);
      TimeRankKeys(mdb, order, tnowRank);
      pids, weights := ranked.0, ranked.1;
    } else {
      var scores;
      pids, scores := RandomRank(mdb, order, rand);
      assert scores == seq(|pids|, _ => 0);
      weights := Reals(scores);
    }
    resp := Finish(pids, weights, ArgOr(args.timeFilter, ""), ArgOr(args.pageNumber, "1"), mdb, tnowFilter);
  }

  /** A search can rank papers the metadata store does not hold; with a
      recency filter such a paper aborts the request with `KeyError`. */
  lemma SearchFilterMissingMeta(pids: seq<string>, weights: seq<real>, filter: string, pageArg: string,
                                kv: map<string, MetaDoc>, tnow: real, k: nat)
    requires |pids| == |weights| && filter != [] && k < |pids| && pids[k] !in kv
    ensures Finish(pids, weights, filter, pageArg, kv, tnow).KeyError?
  {
  }
}
