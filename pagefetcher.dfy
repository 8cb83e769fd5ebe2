/**
 * `fetchCsdbPage`: one request to the chart web service for a 1-based page,
 * and the page of raw entries read from the XML answer.
 * The relay, the URL encoding and the HTTP client are abstracted into a server
 * function from the query to the response.
 */
module PageFetcher {
  import opened Wrappers
  import opened Xml
  import opened Extractor

  /** Results per page of the chart web service. */
  const PageSize := 25

  /** The query parameters of the chart request (`type`, `ctype`, `subtype`, `start`). */
  datatype ChartQuery = ChartQuery(kind: string, ctype: string, subtype: int, start: int)

  /**
   * What the request yields: the HTTP client's exception, or a body parsed as XML
   * (the top-level nodes of the document). Parsing itself never throws: malformed
   * XML becomes a document like any other.
   */
  datatype Response = NetworkError | Body(document: seq<Node>)

  /** The exception `fetchCsdbPage` lets through to its caller. */
  datatype FetchError = RequestFailed

  /** `{ entries, hasMore }`. */
  datatype Page = Page(entries: seq<RawEntry>, hasMore: bool)

  /** The query for a page: the release chart, starting at result `(page - 1) * 25`. */
  function PageQuery(page: int): (q: ChartQuery)
    ensures q.kind == "chart" && q.ctype == "release" && q.subtype == 1
    ensures q.start == (page - 1) * PageSize
  {
    ChartQuery("chart", "release", 1, (page - 1) * PageSize)
  }

  /** What `fetchCsdbPage` returns (or throws) for a given response. */
  function PageOf(response: Response): (r: Result<Page, FetchError>)
    ensures r.Failure? <==> response.NetworkError?
    ensures r.Success? ==> (r.value.hasMore <==> |r.value.entries| >= PageSize)
  {
    match response
    case NetworkError => Failure(RequestFailed)
    case Body(document) =>
      var entryElements := FindAll(document, "Entry");
      if |entryElements| == 0 then Success(Page([], false))
      else
        var entries := ParseEntries(entryElements);
        Success(Page(entries, |entries| >= PageSize))
  }

  /** The records of the given Entry elements, in their order. */
  function ParseEntries(entryElements: seq<Node>): (entries: seq<RawEntry>)
    ensures |entries| == |entryElements|
    ensures forall i :: 0 <= i < |entryElements| ==> entries[i] == ParseEntry(entryElements[i])
  {
    if entryElements == [] then []
    else ParseEntries(entryElements[..|entryElements| - 1]) + [ParseEntry(entryElements[|entryElements| - 1])]
  }

  /** `fetchCsdbPage(page)`: one request, then the Entry elements read in document order. */
  method FetchCsdbPage(page: int, server: ChartQuery -> Response) returns (r: Result<Page, FetchError>)
    ensures r == PageOf(server(PageQuery(page)))
  {
    var response := server(PageQuery(page));
    if response.NetworkError? {
      return Failure(RequestFailed);
    }
    var entryElements := FindAll(response.document, "Entry");
    if |entryElements| == 0 {
      return Success(Page([], false));
    }
    var entries: seq<RawEntry> := [];
    var i := 0;
    while i < |entryElements|
      invariant 0 <= i <= |entryElements|
      invariant entries == ParseEntries(entryElements[..i])
    {
      ParseEntriesSnoc(entryElements, i);
      entries := entries + [ParseEntry(entryElements[i])];
      i := i + 1;
    }
    assert entryElements[..i] == entryElements;
    var hasMore := |entries| >= PageSize;
    r := Success(Page(entries, hasMore));
  }

  /** Parsing one more Entry element appends its record. */
  lemma ParseEntriesSnoc(entryElements: seq<Node>, i: nat)
    requires i < |entryElements|
    ensures ParseEntries(entryElements[..i + 1]) == ParseEntries(entryElements[..i]) + [ParseEntry(entryElements[i])]
  {
    assert entryElements[..i + 1][..i] == entryElements[..i];
  }

  // ---------------------------------------------------------------------------
  // Lemmas
  // ---------------------------------------------------------------------------

  /** The start offset determines the page: distinct pages ask for distinct, 25-aligned offsets. */
  lemma PageQueryRoundTrip(page: int)
    ensures PageQuery(page).start % PageSize == 0
    ensures PageQuery(page).start / PageSize + 1 == page
  {
    var k := page - 1;
    assert (k * 25) / 25 == k && (k * 25) % 25 == 0;
  }

  /** A document without Entry elements gives no entries and no further pages. */
  lemma EmptyDocument(document: seq<Node>)
    requires forall x :: x in PreOrder(document) ==> !HasTag(x, "Entry")
    ensures PageOf(Body(document)) == Success(Page([], false))
  {
    FindAllIsTaggedPreOrder(document, "Entry");
    assert Tagged(PreOrder(document), "Entry") == [];
  }

  /** The entries of a page are the Entry elements of its document, each parsed, in document order. */
  lemma PageEntriesInDocumentOrder(document: seq<Node>)
    ensures var entryElements := Tagged(PreOrder(document), "Entry");
            var entries := PageOf(Body(document)).value.entries;
            && |entries| == |entryElements|
            && forall i :: 0 <= i < |entryElements| ==> entries[i] == ParseEntry(entryElements[i])
  {
    FindAllIsTaggedPreOrder(document, "Entry");
  }
}
