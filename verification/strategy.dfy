/** The per-version parts of the client classes in
    py-pkg/uptasticsearch/clients.py: how the total hit count is read from
    the first page, and how a continuation ("scroll") request is encoded.
    Requests and responses are structured values; JSON text and URL
    assembly are not modelled. */
module Strategy {
  import opened Wrappers

  /** `Uptasticsearch` itself, and one subclass per major version. */
  datatype Variant = Base | V1 | V2 | V5 | V6 | V7

  /** The `_source` object of one hit, kept opaque. */
  datatype Source = Source(json: string)

  /** The shape of `hits.total`: a bare integer, or (newer clusters) an
      object with a `value` and a `relation`. */
  datatype TotalField = Count(n: nat) | Counted(value: nat, relation: string)

  /** One response page: `hits.total`, the `_source` of every hit in
      `hits.hits`, and `_scroll_id` (`None` when the key is absent). */
  datatype Page = Page(total: TotalField, sources: seq<Source>, scrollId: Option<string>)

  /** Where a request goes: `<url>/<index>/<doc_type>/_search` or
      `<url>/_search/scroll`. */
  datatype Target = IndexSearch(index: string, docType: string) | ScrollEndpoint

  /** The request body: the caller's query text, the bare scroll id, or the
      JSON object `{"scroll": …, "scroll_id": …}`. */
  datatype Payload =
    | QueryText(text: string)
    | RawScrollId(id: Option<string>)
    | ScrollJson(scroll: string, scrollId: Option<string>)

  /** A POST: target, the `scroll=` and `size=` query parameters, the body,
      and whether `Content-Type: application/json` is sent. */
  datatype Request = Post(
    target: Target,
    scrollParam: Option<string>,
    sizeParam: Option<int>,
    payload: Payload,
    jsonContentType: bool)

  datatype StrategyError =
    | TotalUnreadable   // `hits.total` has the other shape: a TypeError
    | NotImplemented    // the base class has no continuation encoding

  /** The shape of `hits.total` each variant expects. */
  predicate ExpectsObjectTotal(v: Variant) {
    v == V7
  }

  /** `_get_total_hits`: `hits.total`, or `hits.total.value` for the 7.x
      client. A total of the other shape makes Python raise a TypeError,
      either at the lookup or at the first comparison that uses it; either
      way before any continuation is sent. */
  function TotalHits(v: Variant, page: Page): (r: Result<nat, StrategyError>)
    ensures r.Success? <==> page.total.Counted? == ExpectsObjectTotal(v)
    ensures r.Success? && page.total.Count? ==> r.value == page.total.n
    ensures r.Success? && page.total.Counted? ==> r.value == page.total.value
    ensures r.Failure? ==> r.error == TotalUnreadable
  {
    match page.total
    case Count(n) => if ExpectsObjectTotal(v) then Failure(TotalUnreadable) else Success(n)
    case Counted(value, _) => if ExpectsObjectTotal(v) then Success(value) else Failure(TotalUnreadable)
  }

  /** How a cluster speaking `v`'s protocol reports a total of `n`. */
  function ReportedTotal(v: Variant, n: nat): (f: TotalField)
    ensures TotalHits(v, Page(f, [], None)) == Success(n)
  {
    if ExpectsObjectTotal(v) then Counted(n, "eq") else Count(n)
  }

  /** The first request of a search: the query, with the scroll lifetime and
      page size in the query string. */
  function InitialRequest(query: string, index: string, docType: string, lifetime: string, pageSize: int): (req: Request)
    ensures ReadContinuation(req).None? && req.target == IndexSearch(index, docType)
  {
    Post(IndexSearch(index, docType), Some(lifetime), Some(pageSize), QueryText(query), true)
  }

  /** What the cluster reads out of a continuation request: the lifetime
      and the scroll id, wherever the encoding put them. */
  function ReadContinuation(req: Request): Option<(string, Option<string>)>
  {
    match req
    case Post(ScrollEndpoint, Some(t), None, RawScrollId(id), false) => Some((t, id))
    case Post(ScrollEndpoint, None, None, ScrollJson(t, id), true) => Some((t, id))
    case _ => None
  }

  /** `_make_scroll_request`. Version 1 puts the lifetime in the query
      string and sends the scroll id as the whole body, without headers;
      versions 2, 5, 6 and 7 send both in a JSON body. */
  function ContinuationRequest(v: Variant, lifetime: string, scrollId: Option<string>): (r: Result<Request, StrategyError>)
    ensures r.Failure? <==> v == Base
    ensures r.Failure? ==> r.error == NotImplemented
    ensures r.Success? ==> ReadContinuation(r.value) == Some((lifetime, scrollId))
    ensures r.Success? ==> r.value.target == ScrollEndpoint && r.value.sizeParam == None
    ensures r.Success? ==> (r.value.jsonContentType <==> v != V1)
  {
    match v
    case Base => Failure(NotImplemented)
    case V1 => Success(Post(ScrollEndpoint, Some(lifetime), None, RawScrollId(scrollId), false))
    case _ => Success(Post(ScrollEndpoint, None, None, ScrollJson(lifetime, scrollId), true))
  }
}
