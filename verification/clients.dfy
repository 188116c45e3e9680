/** The scroll pagination engine `Uptasticsearch.search`, the client
    constructor and `uptasticsearch_factory`
    (py-pkg/uptasticsearch/clients.py). The cluster is a scripted sequence
    of response pages: `pages[0]` answers the initial search, `pages[k]` the
    k-th continuation, and every continuation past the end of the script
    gets a page without hits. A cluster always answers the initial search,
    so an empty script describes no real cluster. */
module Clients {
  import opened Wrappers
  import opened Strategy
  import Duration
  import EsUrl
  import EsUrlProperties

  datatype SearchError =
    | BadLifetime(durationError: Duration.DurationError)
    | StrategyFailed(strategyError: StrategyError)
    | Incomplete(expected: nat, received: nat)  // "Expected N Results, instead got M"

  /** The answer to a continuation once the scroll context is used up. */
  const Exhausted: Page := Page(Count(0), [], None)

  /** The page the cluster sends as its `i`-th answer. */
  function PageAt(pages: seq<Page>, i: nat): Page
  {
    if i < |pages| then pages[i] else Exhausted
  }

  /** The `_source` values of the first `n` answers, in order. */
  function Accumulated(pages: seq<Page>, n: nat): seq<Source>
  {
    if n == 0 then [] else Accumulated(pages, n - 1) + PageAt(pages, n - 1).sources
  }

  /** `min(total_hits, max_hits)`, or the total when there is no cap. */
  function EffectiveTarget(total: nat, maxHits: Option<nat>): (t: nat)
    ensures t <= total
    ensures maxHits.None? ==> t == total
    ensures maxHits.Some? ==> t <= maxHits.value && (t == total || t == maxHits.value)
  {
    match maxHits
    case None => total
    case Some(cap) => if cap < total then cap else total
  }

  /** The loop condition is false after `n` answers: the last one had no
      hits, or the results already reach the target. */
  predicate Stops(pages: seq<Page>, target: nat, n: nat) {
    0 < n && (|PageAt(pages, n - 1).sources| == 0 || |Accumulated(pages, n)| >= target)
  }

  function FetchCountFrom(pages: seq<Page>, target: nat, n: nat): (m: nat)
    requires 0 < n <= |pages| + 1
    ensures n <= m <= |pages| + 1
    ensures Stops(pages, target, m)
    ensures forall k :: n <= k < m ==> !Stops(pages, target, k)
    decreases |pages| + 1 - n
  {
    if Stops(pages, target, n) then n else FetchCountFrom(pages, target, n + 1)
  }

  /** How many answers a search reads: the first `m` after which the loop
      condition fails. The script bounds it, so the loop never runs on. */
  function FetchCount(pages: seq<Page>, target: nat): (m: nat)
    ensures 1 <= m <= |pages| + 1
    ensures Stops(pages, target, m)
    ensures forall k :: 1 <= k < m ==> !Stops(pages, target, k)
  {
    FetchCountFrom(pages, target, 1)
  }

  /** The completeness check after the loop: fail when fewer results than
      the target arrived, otherwise return exactly the target's worth. */
  function Finish(results: seq<Source>, target: nat): (r: Result<seq<Source>, SearchError>)
    ensures r.Success? <==> target <= |results|
    ensures r.Success? ==> |r.value| == target && r.value <= results
    ensures r.Failure? ==> r.error == Incomplete(target, |results|)
  {
    if target > |results| then Failure(Incomplete(target, |results|)) else Success(results[..target])
  }

  /** `search`: `sent` lists the requests issued, in order. */
  method Search(v: Variant, query: string, index: string, docType: string, lifetime: string,
                pageSize: int, maxHits: Option<nat>, pages: seq<Page>)
    returns (r: Result<seq<Source>, SearchError>, sent: seq<Request>)
    // A malformed lifetime is reported before any request goes out.
    ensures Duration.ConvertToSec(lifetime).Failure? ==>
      r == Failure(BadLifetime(Duration.ConvertToSec(lifetime).error)) && sent == []
    ensures Duration.ConvertToSec(lifetime).Success? ==>
      |sent| >= 1 && sent[0] == InitialRequest(query, index, docType, lifetime, pageSize)
    // The total is read from the first page only.
    ensures Duration.ConvertToSec(lifetime).Success? && TotalHits(v, PageAt(pages, 0)).Failure? ==>
      r == Failure(StrategyFailed(TotalUnreadable)) && |sent| == 1
    ensures Duration.ConvertToSec(lifetime).Success? && TotalHits(v, PageAt(pages, 0)).Success? ==>
      var target := EffectiveTarget(TotalHits(v, PageAt(pages, 0)).value, maxHits);
      && (v != Base ==> |sent| == FetchCount(pages, target) && r == Finish(Accumulated(pages, |sent|), target))
      && (v == Base && Stops(pages, target, 1) ==> |sent| == 1 && r == Finish(Accumulated(pages, 1), target))
      && (v == Base && !Stops(pages, target, 1) ==> |sent| == 1 && r == Failure(StrategyFailed(NotImplemented)))
      && (target == 0 ==> |sent| == 1)
    // Every continuation carries the scroll id of the answer just received.
    ensures forall k :: 1 <= k < |sent| ==>
      ContinuationRequest(v, lifetime, PageAt(pages, k - 1).scrollId) == Success(sent[k])
    ensures r.Success? ==> |sent| >= 1 && r.value <= Accumulated(pages, |sent|)
    // A short result is an error, and only after the cluster sent an empty page.
    ensures r.Failure? && r.error.Incomplete? ==>
      |sent| >= 1 && |PageAt(pages, |sent| - 1).sources| == 0 && r.error.received < r.error.expected
  {
    var check := Duration.ConvertToSec(lifetime);
    if check.Failure? {
      return Failure(BadLifetime(check.error)), [];
    }
    sent := [InitialRequest(query, index, docType, lifetime, pageSize)];
    var page := PageAt(pages, 0);
    var total := TotalHits(v, page);
    if total.Failure? {
      return Failure(StrategyFailed(total.error)), sent;
    }
    var target := EffectiveTarget(total.value, maxHits);
    var results := page.sources;
    var lastSize := |page.sources|;
    var i := 1;
    assert results == Accumulated(pages, 1);
    while lastSize > 0 && |results| < target
      invariant 1 <= i <= |pages| + 1
      invariant |sent| == i
      invariant sent[0] == InitialRequest(query, index, docType, lifetime, pageSize)
      invariant page == PageAt(pages, i - 1)
      invariant lastSize == |page.sources|
      invariant results == Accumulated(pages, i)
      invariant forall k :: 1 <= k < i ==> !Stops(pages, target, k)
      invariant forall k :: 1 <= k < i ==>
        ContinuationRequest(v, lifetime, PageAt(pages, k - 1).scrollId) == Success(sent[k])
      invariant v == Base ==> i == 1
      decreases |pages| + 1 - i
    {
      var request := ContinuationRequest(v, lifetime, page.scrollId);
      if request.Failure? {
        return Failure(StrategyFailed(request.error)), sent;
      }
      assert !Stops(pages, target, i);
      ghost var before := sent;
      sent := sent + [request.value];
      assert forall k :: 1 <= k < i ==> sent[k] == before[k];
      page := PageAt(pages, i);
      lastSize := |page.sources|;
      results := results + page.sources;
      i := i + 1;
    }
    assert Stops(pages, target, i);
    r := Finish(results, target);
  }

  // -----------------------------------------------------------------------
  // Construction and version dispatch
  // -----------------------------------------------------------------------

  /** A client instance: its class and its formatted URL. */
  datatype Client = Client(variant: Variant, url: string)

  datatype FactoryError =
    | BadUrl(cause: EsUrl.UrlError)    // from `_format_es_url`
    | UnknownVersion(major: string)    // the KeyError of the class lookup

  /** The constructor, which formats the URL it is given. */
  function NewClient(v: Variant, url: string): (r: Result<Client, EsUrl.UrlError>)
    ensures r.Success? <==> EsUrl.FormatEsUrl(url).Success?
    ensures r.Success? ==> r.value.variant == v && EsUrl.Canonical(r.value.url)
    ensures r.Success? ==> r.value.url == EsUrl.FormatEsUrl(url).value
    ensures r.Failure? ==> r.error == EsUrl.FormatEsUrl(url).error
  {
    match EsUrl.FormatEsUrl(url)
    case Failure(e) => Failure(e)
    case Success(u) => Success(Client(v, u))
  }

  /** `number.split('.')[0]`: the text before the first dot. */
  function MajorVersion(number: string): (m: string)
    ensures m <= number
    ensures '.' !in m
    ensures |m| < |number| ==> number[|m|] == '.'
  {
    if |number| == 0 || number[0] == '.' then "" else [number[0]] + MajorVersion(number[1..])
  }

  /** The class table of the factory. */
  function VariantFor(major: string): (r: Option<Variant>)
    ensures r.Some? <==> major in {"1", "2", "5", "6", "7"}
    ensures r.Some? ==> r.value != Base && MajorName(r.value) == major
  {
    if major == "1" then Some(V1)
    else if major == "2" then Some(V2)
    else if major == "5" then Some(V5)
    else if major == "6" then Some(V6)
    else if major == "7" then Some(V7)
    else None
  }

  /** The major version each class serves. */
  function MajorName(v: Variant): string
    requires v != Base
  {
    match v
    case V1 => "1"
    case V2 => "2"
    case V5 => "5"
    case V6 => "6"
    case V7 => "7"
  }

  /** `uptasticsearch_factory`: `versionNumber` is what the probe of the
      cluster root answered. The URL is formatted by the factory and again by
      the constructor; the client keeps the once-formatted URL. */
  function Factory(url: string, versionNumber: string): (r: Result<Client, FactoryError>)
    ensures EsUrl.FormatEsUrl(url).Failure? ==> r == Failure(BadUrl(EsUrl.FormatEsUrl(url).error))
    ensures EsUrl.FormatEsUrl(url).Success? && VariantFor(MajorVersion(versionNumber)).None? ==>
      r == Failure(UnknownVersion(MajorVersion(versionNumber)))
    ensures r.Success? <==> EsUrl.FormatEsUrl(url).Success? && VariantFor(MajorVersion(versionNumber)).Some?
    ensures r.Success? ==>
      && r.value.url == EsUrl.FormatEsUrl(url).value
      && Some(r.value.variant) == VariantFor(MajorVersion(versionNumber))
  {
    match EsUrl.FormatEsUrl(url)
    case Failure(e) => Failure(BadUrl(e))
    case Success(esUrl) =>
      match VariantFor(MajorVersion(versionNumber))
      case None => Failure(UnknownVersion(MajorVersion(versionNumber)))
      case Some(v) =>
        EsUrlProperties.FormatIdempotent(url);
        match NewClient(v, esUrl)
        case Failure(e) => Failure(BadUrl(e))
        case Success(c) => Success(c)
  }
}

/** Properties of the search loop and of the factory that relate several
    calls or pin down concrete runs. */
module ClientsProperties {
  import opened Wrappers
  import opened Strategy
  import opened Clients

  /** A dotted version number selects by the text before the first dot. */
  lemma {:induction false} MajorOfDotted(p: string, rest: string)
    requires '.' !in p
    ensures MajorVersion(p + "." + rest) == p
  {
    if |p| > 0 {
      assert (p + "." + rest)[1..] == p[1..] + "." + rest;
      MajorOfDotted(p[1..], rest);
      assert p == [p[0]] + p[1..];
    }
  }

  /** Every class of the table is what the factory picks for its own major
      version, whatever the minor and patch parts are. */
  lemma FactoryPicksVariant(v: Variant, rest: string)
    requires v != Base
    ensures VariantFor(MajorVersion(MajorName(v) + "." + rest)) == Some(v)
  {
    MajorOfDotted(MajorName(v), rest);
  }

  lemma VersionExamples()
    ensures VariantFor(MajorVersion("7.10.2")) == Some(V7)
    ensures VariantFor(MajorVersion("6.8.0")) == Some(V6)
    ensures VariantFor(MajorVersion("3.0.0")) == None
    ensures VariantFor(MajorVersion("10.1.0")) == None
  {
    MajorOfDotted("7", "10.2");
    MajorOfDotted("6", "8.0");
    MajorOfDotted("3", "0.0");
    MajorOfDotted("10", "1.0");
  }

  function Docs(tag: char, n: nat): (d: seq<Source>)
    ensures |d| == n
  {
    if n == 0 then [] else Docs(tag, n - 1) + [Source([tag])]
  }

  /** A cluster reporting 5 hits that hands them out as 2, 2 and 1: three
      answers are read, and all five documents are returned. */
  lemma ThreePageScroll()
    ensures
      var pages := [Page(Count(5), Docs('a', 2), Some("s1")),
                    Page(Count(5), Docs('b', 2), Some("s2")),
                    Page(Count(5), Docs('c', 1), Some("s3"))];
      && FetchCount(pages, 5) == 3
      && Finish(Accumulated(pages, 3), 5) == Success(Accumulated(pages, 3))
  {
    var pages := [Page(Count(5), Docs('a', 2), Some("s1")),
                  Page(Count(5), Docs('b', 2), Some("s2")),
                  Page(Count(5), Docs('c', 1), Some("s3"))];
    assert |Accumulated(pages, 1)| == 2;
    assert |Accumulated(pages, 2)| == 4;
    assert |Accumulated(pages, 3)| == 5;
    assert Accumulated(pages, 3)[..5] == Accumulated(pages, 3);
    assert !Stops(pages, 5, 1) && !Stops(pages, 5, 2) && Stops(pages, 5, 3);
  }

  /** A cap below what the first page holds: no continuation, and exactly
      the cap's worth of documents. */
  lemma CapOnFirstPage()
    ensures
      var pages := [Page(Count(100), Docs('a', 4), Some("s1"))];
      var target := EffectiveTarget(100, Some(2));
      && target == 2
      && FetchCount(pages, target) == 1
      && Finish(Accumulated(pages, 1), target) == Success(Docs('a', 4)[..2])
  {
    var pages := [Page(Count(100), Docs('a', 4), Some("s1"))];
    assert Accumulated(pages, 1) == Docs('a', 4);
    assert Stops(pages, 2, 1);
  }

  /** The cluster promises 4 hits but the second answer is empty after 2:
      the search fails instead of returning a short list. */
  lemma ExhaustedEarly()
    ensures
      var pages := [Page(Count(4), Docs('a', 2), Some("s1")),
                    Page(Count(4), [], Some("s1"))];
      && FetchCount(pages, 4) == 2
      && Finish(Accumulated(pages, 2), 4) == Failure(Incomplete(4, 2))
  {
    var pages := [Page(Count(4), Docs('a', 2), Some("s1")),
                  Page(Count(4), [], Some("s1"))];
    assert |Accumulated(pages, 1)| == 2;
    assert |Accumulated(pages, 2)| == 2;
    assert !Stops(pages, 4, 1) && Stops(pages, 4, 2);
  }
}
