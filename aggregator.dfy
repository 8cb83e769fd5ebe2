/**
 * `fetchAllDemos`: fetch pages 1, 2, ... one at a time, format and collect their
 * entries, and stop at a failed request, an empty page, a short page or page 20.
 */
module Aggregator {
  import opened Wrappers
  import opened Extractor
  import opened Formatter
  import opened PageFetcher
  import opened Seqs

  /** The cap on the number of pages requested. */
  const MaxPages := 20

  /** What fetching each page yields: the page oracle the loop runs against. */
  type Fetch = int -> Result<Page, FetchError>

  /** The page oracle of a server: page p is what `fetchCsdbPage(p)` returns or throws against it. */
  function PageOutcomes(server: ChartQuery -> Response): (fetch: Fetch)
    ensures forall p :: fetch(p) == PageOf(server(PageQuery(p)))
  {
    p => PageOf(server(PageQuery(p)))
  }

  /** Two page oracles give the same outcome for `page`. */
  ghost predicate SameOutcome(f: Fetch, g: Fetch, page: int) {
    f(page) == g(page)
  }

  /** A successful page announces more pages exactly when it holds at least a full page of entries. */
  ghost predicate FullPageRule(fetch: Fetch) {
    forall p :: fetch(p).Success? ==> (fetch(p).value.hasMore <==> |fetch(p).value.entries| >= PageSize)
  }

  /** The loop goes on past `page`: the fetch succeeded with entries and announced more pages. */
  predicate Continues(fetch: Fetch, page: int) {
    fetch(page).Success? && |fetch(page).value.entries| > 0 && fetch(page).value.hasMore
  }

  /** The raw entries page `page` contributes: those of a successful fetch, none for a failed one. */
  function EntriesAt(fetch: Fetch, page: int): seq<RawEntry> {
    match fetch(page)
    case Failure(_) => []
    case Success(p) => p.entries
  }

  /** The pages the loop requests when it reaches `page`, in request order. */
  function Requested(fetch: Fetch, page: int): seq<int>
    decreases MaxPages + 1 - page
  {
    if page > MaxPages then []
    else [page] + (if Continues(fetch, page) then Requested(fetch, page + 1) else [])
  }

  /**
   * The raw entries whose formatted records the loop collects from `page` on:
   * those of each page it requests (none for a failed or empty page).
   */
  function Kept(fetch: Fetch, page: int): seq<RawEntry>
    decreases MaxPages + 1 - page
  {
    if page > MaxPages then []
    else EntriesAt(fetch, page) + (if Continues(fetch, page) then Kept(fetch, page + 1) else [])
  }

  /** The raw entries of the given pages, concatenated in order. */
  function RawEntries(fetch: Fetch, pages: seq<int>): seq<RawEntry> {
    if pages == [] then [] else EntriesAt(fetch, pages[0]) + RawEntries(fetch, pages[1..])
  }

  /** The pages `lo`, `lo` + 1, ..., `hi` - 1. */
  function Range(lo: int, hi: int): (r: seq<int>)
    requires lo <= hi
    ensures |r| == hi - lo
    decreases hi - lo
  {
    if lo == hi then [] else [lo] + Range(lo + 1, hi)
  }

  /**
   * `fetchAllDemos()`, against a server that answers each query; `requested` records
   * the pages asked for. A failed request ends the loop without an exception.
   */
  method FetchAllDemos(server: ChartQuery -> Response) returns (allDemos: seq<DisplayRecord>, ghost requested: seq<int>)
    ensures allDemos == FormatEntries(Kept(PageOutcomes(server), 1))
    ensures requested == Requested(PageOutcomes(server), 1)
  {
    assert forall p :: SameOutcome(PageOutcomes(server), PageOutcomes(server), p);
    allDemos, requested := CollectPages(server, PageOutcomes(server));
  }

  /** The loop of `fetchAllDemos()`, with its outcome stated through an oracle that agrees with the server's. */
  method CollectPages(server: ChartQuery -> Response, ghost fetch: Fetch) returns (allDemos: seq<DisplayRecord>, ghost requested: seq<int>)
    requires forall p :: SameOutcome(fetch, PageOutcomes(server), p)
    ensures allDemos == FormatEntries(Kept(fetch, 1))
    ensures requested == Requested(fetch, 1)
  {
    ghost var kept: seq<RawEntry> := [];
    ghost var stopped := false;
    allDemos := [];
    var page := 1;
    var hasMorePages := true;
    requested := [];
    EmptyAppend(Kept(fetch, 1));
    EmptyAppend(Requested(fetch, 1));
    while hasMorePages && page <= MaxPages
      invariant 1 <= page <= MaxPages + 1
      invariant !stopped
      invariant allDemos == FormatEntries(kept)
      invariant hasMorePages ==> kept + Kept(fetch, page) == Kept(fetch, 1)
      invariant hasMorePages ==> requested + Requested(fetch, page) == Requested(fetch, 1)
      invariant !hasMorePages ==> kept == Kept(fetch, 1) && requested == Requested(fetch, 1)
      decreases MaxPages + 1 - page
    {
      var result := FetchPage(page, server, fetch);
      if result.Failure? || |result.value.entries| == 0 {
        StopAtPage(fetch, kept, requested, page);
        requested := requested + [page];
        stopped := true;
        break;
      }
      var entries, hasMore := result.value.entries, result.value.hasMore;
      GoOnPastPage(fetch, kept, requested, page, entries, hasMore);
      FormatEntriesAppend(kept, entries);
      allDemos := allDemos + FormatEntries(entries);
      kept := kept + entries;
      requested := requested + [page];
      hasMorePages := hasMore;
      page := page + 1;
    }
    if !stopped && hasMorePages {
      PastTheCap(fetch, kept, requested, page);
    }
  }

  /** `fetchCsdbPage(page)` against `server`, seen through an oracle that agrees with the server's. */
  method FetchPage(page: int, server: ChartQuery -> Response, ghost fetch: Fetch) returns (r: Result<Page, FetchError>)
    requires forall p :: SameOutcome(fetch, PageOutcomes(server), p)
    ensures r == fetch(page)
  {
    r := FetchCsdbPage(page, server);
    assert SameOutcome(fetch, PageOutcomes(server), page);
  }

  lemma StopAtPage(fetch: Fetch, kept: seq<RawEntry>, requested: seq<int>, page: int)
    requires page <= MaxPages
    requires fetch(page).Failure? || |fetch(page).value.entries| == 0
    requires kept + Kept(fetch, page) == Kept(fetch, 1)
    requires requested + Requested(fetch, page) == Requested(fetch, 1)
    ensures kept == Kept(fetch, 1) && requested + [page] == Requested(fetch, 1)
  {
    KeptStop(fetch, page);
    RequestedStop(fetch, page);
    assert EntriesAt(fetch, page) == [];
    AppendEmpty(kept);
  }

  /** A page with entries adds them all, in order, and the loop goes on exactly when it announced more pages. */
  lemma GoOnPastPage(fetch: Fetch, kept: seq<RawEntry>, requested: seq<int>, page: int, entries: seq<RawEntry>, hasMore: bool)
    requires page <= MaxPages
    requires fetch(page) == Success(Page(entries, hasMore)) && |entries| > 0
    requires kept + Kept(fetch, page) == Kept(fetch, 1)
    requires requested + Requested(fetch, page) == Requested(fetch, 1)
    ensures hasMore ==> (kept + entries) + Kept(fetch, page + 1) == Kept(fetch, 1)
    ensures hasMore ==> (requested + [page]) + Requested(fetch, page + 1) == Requested(fetch, 1)
    ensures !hasMore ==> kept + entries == Kept(fetch, 1) && requested + [page] == Requested(fetch, 1)
  {
    assert EntriesAt(fetch, page) == entries;
    assert Continues(fetch, page) == hasMore;
    if hasMore {
      KeptGo(fetch, page);
      RequestedGo(fetch, page);
      AppendAssoc(kept, entries, Kept(fetch, page + 1));
      AppendAssoc(requested, [page], Requested(fetch, page + 1));
    } else {
      KeptStop(fetch, page);
      RequestedStop(fetch, page);
    }
  }

  /** Past the cap, the loop requests and keeps nothing more. */
  lemma PastTheCap(fetch: Fetch, kept: seq<RawEntry>, requested: seq<int>, page: int)
    requires page > MaxPages
    requires kept + Kept(fetch, page) == Kept(fetch, 1)
    requires requested + Requested(fetch, page) == Requested(fetch, 1)
    ensures kept == Kept(fetch, 1) && requested == Requested(fetch, 1)
  {
    AppendEmpty(kept);
    AppendEmpty(requested);
  }

  /** A page at which the loop does not go on contributes exactly its own entries. */
  lemma KeptStop(fetch: Fetch, page: int)
    requires page <= MaxPages && !Continues(fetch, page)
    ensures Kept(fetch, page) == EntriesAt(fetch, page)
  {
    AppendEmpty(EntriesAt(fetch, page));
  }

  /** A page at which the loop does not go on is the last one requested. */
  lemma RequestedStop(fetch: Fetch, page: int)
    requires page <= MaxPages && !Continues(fetch, page)
    ensures Requested(fetch, page) == [page]
  {
    AppendEmpty([page]);
  }

  /** A continuing page contributes its entries and hands over to the next page. */
  lemma KeptGo(fetch: Fetch, page: int)
    requires page <= MaxPages && Continues(fetch, page)
    ensures Kept(fetch, page) == EntriesAt(fetch, page) + Kept(fetch, page + 1)
  {
  }

  /** After a continuing page, the loop requests the next one. */
  lemma RequestedGo(fetch: Fetch, page: int)
    requires page <= MaxPages && Continues(fetch, page)
    ensures Requested(fetch, page) == [page] + Requested(fetch, page + 1)
  {
  }

  lemma RangeCons(lo: int, hi: int)
    requires lo < hi
    ensures Range(lo, hi) == [lo] + Range(lo + 1, hi)
  {
  }

  lemma MulStep(a: int, b: int)
    ensures a * (b + 1) == a * b + a
  {
  }

  lemma RawEntriesCons(fetch: Fetch, page: int, pages: seq<int>)
    ensures RawEntries(fetch, [page] + pages) == EntriesAt(fetch, page) + RawEntries(fetch, pages)
  {
    assert ([page] + pages)[1..] == pages;
  }

  lemma {:induction false} RangeSnoc(lo: int, hi: int)
    requires lo <= hi
    ensures Range(lo, hi) + [hi] == Range(lo, hi + 1)
    decreases hi - lo
  {
    if lo < hi {
      RangeSnoc(lo + 1, hi);
      AppendAssoc([lo], Range(lo + 1, hi), [hi]);
    }
  }

  // ---------------------------------------------------------------------------
  // Lemmas
  // ---------------------------------------------------------------------------

  /** The oracle of every server follows the full-page rule of `fetchCsdbPage`. */
  lemma ServerFollowsFullPageRule(server: ChartQuery -> Response)
    ensures FullPageRule(PageOutcomes(server))
  {
  }

  /** From `page` on, the loop requests consecutive pages and never one past the cap. */
  lemma {:induction false} RequestedConsecutive(fetch: Fetch, page: int)
    ensures forall i :: 0 <= i < |Requested(fetch, page)| ==> Requested(fetch, page)[i] == page + i
    ensures page <= MaxPages ==> |Requested(fetch, page)| >= 1
    ensures page + |Requested(fetch, page)| <= MaxPages + 1 || page > MaxPages
    decreases MaxPages + 1 - page
  {
    if page <= MaxPages && Continues(fetch, page) {
      RequestedConsecutive(fetch, page + 1);
    }
  }

  /** A sequence of consecutive numbers from `lo` on is a range. */
  lemma {:induction false} ConsecutiveIsRange(r: seq<int>, lo: int)
    requires forall i :: 0 <= i < |r| ==> r[i] == lo + i
    ensures r == Range(lo, lo + |r|)
  {
    if r != [] {
      ConsecutiveIsRange(r[1..], lo + 1);
      assert r == [r[0]] + r[1..];
    }
  }

  /** The loop requests pages 1, 2, ..., k in that order for some 1 <= k <= 20, so page 21 is never requested. */
  lemma RequestsPagesOneToK(fetch: Fetch)
    ensures var r := Requested(fetch, 1);
            && 1 <= |r| <= MaxPages
            && r == Range(1, |r| + 1)
            && MaxPages + 1 !in r
  {
    RequestedConsecutive(fetch, 1);
    ConsecutiveIsRange(Requested(fetch, 1), 1);
  }

  /** Page p is requested at start offset (p - 1) * 25: the k-th request (from 0) asks for results from 25 k on. */
  lemma RequestOffsets(fetch: Fetch)
    ensures var r := Requested(fetch, 1);
            forall i :: 0 <= i < |r| ==> PageQuery(r[i]).start == i * PageSize
  {
    RequestedConsecutive(fetch, 1);
  }

  /** The loop stops after the last page it requests, and only there: every earlier page was non-empty and full. */
  lemma {:induction false} StopsAtLastRequest(fetch: Fetch, page: int)
    requires page <= MaxPages
    ensures var r := Requested(fetch, page);
            && (forall i :: 0 <= i < |r| - 1 ==> Continues(fetch, r[i]))
            && (!Continues(fetch, r[|r| - 1]) || r[|r| - 1] == MaxPages)
    decreases MaxPages + 1 - page
  {
    RequestedConsecutive(fetch, page);
    if page < MaxPages && Continues(fetch, page) {
      StopsAtLastRequest(fetch, page + 1);
      RequestedGo(fetch, page);
    }
  }

  /**
   * The entries kept are those of the pages requested, in request order
   * (a failed or empty last page contributes nothing).
   */
  lemma {:induction false} KeptIsRequestedPages(fetch: Fetch, page: int)
    ensures Kept(fetch, page) == RawEntries(fetch, Requested(fetch, page))
    decreases MaxPages + 1 - page
  {
    if page <= MaxPages {
      if Continues(fetch, page) {
        KeptGo(fetch, page);
        RequestedGo(fetch, page);
        KeptIsRequestedPages(fetch, page + 1);
        RawEntriesCons(fetch, page, Requested(fetch, page + 1));
      } else {
        KeptStop(fetch, page);
        RequestedStop(fetch, page);
        RawEntriesCons(fetch, page, []);
        AppendEmpty([page]);
        AppendEmpty(EntriesAt(fetch, page));
      }
    }
  }

  /**
   * Over pages that all continue, the loop keeps their entries followed by what it
   * keeps from the next page on.
   */
  lemma {:induction false} ContinuingPrefix(fetch: Fetch, first: int, m: int)
    requires 1 <= first <= m <= MaxPages + 1
    requires forall p :: first <= p < m ==> Continues(fetch, p)
    ensures Kept(fetch, first) == RawEntries(fetch, Range(first, m)) + Kept(fetch, m)
    decreases m - first
  {
    if first < m {
      var rest := Range(first + 1, m);
      KeptGo(fetch, first);
      ContinuingPrefix(fetch, first + 1, m);
      Regroup(Kept(fetch, first), EntriesAt(fetch, first), Kept(fetch, first + 1), RawEntries(fetch, rest), Kept(fetch, m));
      RawEntriesCons(fetch, first, rest);
      RangeCons(first, m);
    }
  }

  /** Over pages that all continue, the loop requests them in order and then whatever it requests from the next page on. */
  lemma {:induction false} ContinuingRequests(fetch: Fetch, first: int, m: int)
    requires 1 <= first <= m <= MaxPages + 1
    requires forall p :: first <= p < m ==> Continues(fetch, p)
    ensures Requested(fetch, first) == Range(first, m) + Requested(fetch, m)
    decreases m - first
  {
    if first < m {
      var rest := Range(first + 1, m);
      RequestedGo(fetch, first);
      ContinuingRequests(fetch, first + 1, m);
      Regroup(Requested(fetch, first), [first], Requested(fetch, first + 1), rest, Requested(fetch, m));
      RangeCons(first, m);
    }
  }

  /**
   * After continuing pages 1..m-1, a page m at which the loop does not go on is the last
   * request, and the loop keeps the entries of pages 1..m.
   */
  lemma StopsAtPage(fetch: Fetch, m: int)
    requires 1 <= m <= MaxPages
    requires forall p :: 1 <= p < m ==> Continues(fetch, p)
    requires !Continues(fetch, m)
    ensures Kept(fetch, 1) == RawEntries(fetch, Range(1, m)) + EntriesAt(fetch, m)
    ensures Requested(fetch, 1) == Range(1, m + 1)
  {
    ContinuingPrefix(fetch, 1, m);
    ContinuingRequests(fetch, 1, m);
    KeptStop(fetch, m);
    RequestedStop(fetch, m);
    RangeSnoc(1, m);
  }

  /** A failed or empty page m after continuing pages 1..m-1 leaves exactly the entries of pages 1..m-1, and m is the last request. */
  lemma StopAtFailedOrEmptyPage(fetch: Fetch, m: int)
    requires 1 <= m <= MaxPages
    requires forall p :: 1 <= p < m ==> Continues(fetch, p)
    requires fetch(m).Failure? || |fetch(m).value.entries| == 0
    ensures Kept(fetch, 1) == RawEntries(fetch, Range(1, m))
    ensures Requested(fetch, 1) == Range(1, m + 1)
  {
    StopsAtPage(fetch, m);
    assert EntriesAt(fetch, m) == [];
    AppendEmpty(RawEntries(fetch, Range(1, m)));
  }

  /** The number of raw entries of consecutive pages that each hold exactly `size` entries. */
  lemma {:induction false} UniformPagesCount(fetch: Fetch, lo: int, hi: int, size: nat)
    requires lo <= hi
    requires forall p :: lo <= p < hi ==> fetch(p).Success? && |fetch(p).value.entries| == size
    ensures |RawEntries(fetch, Range(lo, hi))| == size * (hi - lo)
    decreases hi - lo
  {
    if lo < hi {
      var rest := Range(lo + 1, hi);
      UniformPagesCount(fetch, lo + 1, hi, size);
      RangeCons(lo, hi);
      RawEntriesCons(fetch, lo, rest);
      assert |EntriesAt(fetch, lo)| == size;
      MulStep(size, hi - (lo + 1));
    }
  }

  /** Pages holding a full page of entries each continue the loop. */
  lemma FullPagesContinue(fetch: Fetch, lo: int, hi: int)
    requires FullPageRule(fetch)
    requires forall p :: lo <= p < hi ==> fetch(p).Success? && |fetch(p).value.entries| == PageSize
    ensures forall p :: lo <= p < hi ==> Continues(fetch, p)
  {
  }

  /** A page holding fewer than a full page of entries does not continue the loop. */
  lemma ShortPageStops(fetch: Fetch, p: int)
    requires FullPageRule(fetch)
    requires fetch(p).Success? && |fetch(p).value.entries| < PageSize
    ensures !Continues(fetch, p)
  {
  }

  /** n full pages of 25 followed by a short page of k < 25 entries give 25 n + k records after n + 1 requests. */
  lemma FullPagesThenShortPage(fetch: Fetch, n: nat, k: nat)
    requires FullPageRule(fetch)
    requires n < MaxPages && k < PageSize
    requires forall p :: 1 <= p <= n ==> fetch(p).Success? && |fetch(p).value.entries| == PageSize
    requires fetch(n + 1).Success? && |fetch(n + 1).value.entries| == k
    ensures |Kept(fetch, 1)| == PageSize * n + k
    ensures Requested(fetch, 1) == Range(1, n + 2)
  {
    FullPagesContinue(fetch, 1, n + 1);
    ShortPageStops(fetch, n + 1);
    StopsAtPage(fetch, n + 1);
    UniformPagesCount(fetch, 1, n + 1, PageSize);
    assert |EntriesAt(fetch, n + 1)| == k;
  }

  /** Twenty full pages give 500 records and the loop stops at the cap: page 21 is never requested. */
  lemma TwentyFullPages(fetch: Fetch)
    requires FullPageRule(fetch)
    requires forall p :: 1 <= p <= MaxPages ==> fetch(p).Success? && |fetch(p).value.entries| == PageSize
    ensures |Kept(fetch, 1)| == PageSize * MaxPages
    ensures Requested(fetch, 1) == Range(1, MaxPages + 1)
  {
    FullPagesContinue(fetch, 1, MaxPages + 1);
    ContinuingPrefix(fetch, 1, MaxPages + 1);
    ContinuingRequests(fetch, 1, MaxPages + 1);
    UniformPagesCount(fetch, 1, MaxPages + 1, PageSize);
    AppendEmpty(RawEntries(fetch, Range(1, MaxPages + 1)));
    AppendEmpty(Range(1, MaxPages + 1));
  }

  /** Two full pages and a failed third request give 50 records, with pages 1 to 3 requested. */
  lemma FailureOnThirdPage(fetch: Fetch)
    requires FullPageRule(fetch)
    requires fetch(1).Success? && |fetch(1).value.entries| == PageSize
    requires fetch(2).Success? && |fetch(2).value.entries| == PageSize
    requires fetch(3).Failure?
    ensures |Kept(fetch, 1)| == 2 * PageSize
    ensures Requested(fetch, 1) == [1, 2, 3]
  {
    FullPagesContinue(fetch, 1, 3);
    StopAtFailedOrEmptyPage(fetch, 3);
    UniformPagesCount(fetch, 1, 3, PageSize);
    assert Range(1, 4) == [1, 2, 3];
  }
}
