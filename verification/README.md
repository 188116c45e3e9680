# uptasticsearch retrieval core, modelled in Dafny

This project models the core of the Python package `uptasticsearch`, which pulls
documents out of an Elasticsearch cluster. It covers three parts:

* the endpoint normaliser `_format_es_url` and the duration parser
  `convert_to_sec` (`uptasticsearch/util.py`);
* the per-version client classes `Uptasticsearch`, `Uptasticsearch1/2/5/6/7`.
  Each class differs in how it reads the total hit count and how it encodes a
  scroll continuation request;
* the scroll loop `Uptasticsearch.search` and the class selection in
  `uptasticsearch_factory` (`uptasticsearch/clients.py`).

Files and modules:

| file | modules | what |
|---|---|---|
| `wrappers.dfy` | `Wrappers` | `Option`, `Result` |
| `text.dfy` | `Text` | ASCII character classes; `Body`, the text Python's `$` anchor sees |
| `es_url.dfy` | `EsUrl`, `EsUrlProperties`, `EsUrlExamples` | `_format_es_url`, its idempotence, the regex languages, the test-suite examples |
| `duration.dfy` | `Duration`, `DurationProperties` | `convert_to_sec`, decimal round trip, examples |
| `strategy.dfy` | `Strategy` | variants, pages, requests, `_get_total_hits`, `_make_scroll_request` |
| `clients.dfy` | `Clients`, `ClientsProperties` | `search`, the constructor, `uptasticsearch_factory`, concrete scroll runs |

How the model is built:

* **Regular expressions.** Each one is a predicate over characters. `re.search`
  returns the leftmost match. So the host part kept by the repair step is found
  by scanning start positions from the left (`FirstAddrFrom`). The result is the
  longest suffix in the language `(\.?[A-Za-z0-9]+)*:[0-9]+`. `HostGroupsMatch`
  proves that the character-level predicate `HostChars` is exactly the language
  of the group `(\.?[A-Za-z0-9]+)*`.
* **Python's `$`.** It matches at the end of the string and also just before one
  final newline. `Text.Body` is the part of the string that `$`-anchored
  patterns see. So `"http://h:9200\n"` keeps its newline: it has a protocol and
  is returned as is. `"h:9200\n"` loses the newline in the repair step.
* **The cluster.** It is a script, `seq<Page>`. `pages[0]` answers the initial
  search and `pages[k]` answers the k-th continuation. Any continuation past the
  end gets a page with no hits. `Search` returns the result together with the
  list of requests it sent. Its contract says:
  - how many answers it reads: the first point where the loop condition fails
    (`FetchCount`);
  - which scroll id each continuation carries;
  - that the output is exactly the target's worth of documents, or fails with
    "Expected N Results".
* **Requests.** They are structured values (`Strategy.Request`): target,
  `scroll=` and `size=` parameters, body shape and JSON content type.
  `ReadContinuation` is the cluster's view of a continuation request: the
  lifetime and the scroll id. Every non-base variant's encoding round-trips
  through it.
* **The base class** `Uptasticsearch` is the variant `Base`. Its searches work
  until a continuation is needed, and then fail with `NotImplemented`.

Behaviours of the source worth knowing:

* `convert_to_sec` on a string with no trailing letter fails with an
  `AttributeError`, not a `ValueError` (`NoUnit`).
* The numeric part is parsed before the unit is looked up. So `"yy"` fails as
  "not an integer", not as "unknown unit".
* The unit letter is deleted everywhere in the string. So `"1m1m"` is 11
  minutes.
* The repair step of `_format_es_url` cannot fail once the port check has
  passed. `":<digits>"` alone already matches the host pattern, and
  `RepairedHost` has no failure case.

## Model

| member | source | states |
|---|---|---|
| EsUrl.FormatEsUrl | py-pkg/uptasticsearch/util.py:26-58 | fails with the space error exactly when the input holds a literal space; fails with the port error exactly when, after trailing slashes are removed, no `:<digits>` ends the string; every success has a `[A-Za-z]+://` prefix, a port at the end, no space and no trailing `/`; with a protocol the slash-stripped input is returned; without one, `http://` followed by the leftmost (longest) match of the host pattern |
| EsUrl.ProtocolUrl | py-pkg/uptasticsearch/util.py:45-58 | on an endpoint with a port and no space: one with a protocol is returned as it is; one without becomes `http://` followed by the leftmost match of the host pattern; either way the result is canonical and does not end in `/` |
| EsUrl.RepairedUrl | py-pkg/uptasticsearch/util.py:50-56 | the repaired endpoint is `http://` followed by the leftmost match of the host pattern in the text before a final newline; it is canonical and does not end in `/` |
| EsUrl.StripKeepsNoSpace | py-pkg/uptasticsearch/util.py:29-35 | removing the slash run brings in no character, so a string without a space still has none afterwards |
| EsUrl.PortedEndsWell | py-pkg/uptasticsearch/util.py:38-39 | a string with a port does not end in `/` |
| EsUrl.DropSlashes | py-pkg/uptasticsearch/util.py:33-35 | the result is a prefix of the input that does not end in `/`, and everything removed was `/` |
| EsUrl.StripSlashes | py-pkg/uptasticsearch/util.py:35 | the substitution anchored by `$`: the slash run is removed from the text before a final newline, and the newline stays (a definition: it carries no contract) |
| EsUrl.StripSlashesShape | py-pkg/uptasticsearch/util.py:33-35 | a final newline stays in place, and before it the whole run of `/` that ended the rest is removed, so what stays before the newline is a prefix of the input that does not end in `/` |
| EsUrl.HasPort | py-pkg/uptasticsearch/util.py:38-39 | `:<digits>` ends the string, before a final newline if there is one (a definition: it carries no contract) |
| EsUrl.PortEndsInDigit | py-pkg/uptasticsearch/util.py:38-39 | a string with a port holds a `:` and ends in a digit, before a final newline if there is one |
| EsUrl.HasProtocol | py-pkg/uptasticsearch/util.py:46-47 | the string starts with one or more letters followed by `://` (a definition: it carries no contract) |
| EsUrl.AddrText | py-pkg/uptasticsearch/util.py:53 | the strings `(\.?[A-Za-z0-9]+)*:[0-9]+` matches in full: a host of letters, digits and dots (each dot followed by a letter or digit), a `:`, and one or more digits (a definition: it carries no contract) |
| EsUrl.FirstAddrFrom | py-pkg/uptasticsearch/util.py:53 | the position found is the first start position from which the rest of the string matches `(\.?[A-Za-z0-9]+)*:[0-9]+`, as a regex search scans |
| EsUrl.RepairedHost | py-pkg/uptasticsearch/util.py:53-54 | when the string ends in a port, the host part kept is a suffix in the host language and no longer suffix is |
| EsUrlProperties.HostGroupsMatch | py-pkg/uptasticsearch/util.py:53 | the character-level description (letters, digits, dots, every dot followed by a letter or digit) is exactly the language of `(\.?[A-Za-z0-9]+)*`, both directions |
| EsUrlProperties.PortedIsStripped | py-pkg/uptasticsearch/util.py:33-43 | a string that passes the port check has no trailing slash run, so the slash step leaves it unchanged |
| EsUrlProperties.CanonicalIsFixed | py-pkg/uptasticsearch/util.py:29-58 | a string with no space, a protocol and a port is returned unchanged |
| EsUrlProperties.FormatIdempotent | py-pkg/uptasticsearch/util.py:29-58 | formatting a formatted URL gives the same result, as the factory and then the constructor both format it |
| EsUrlProperties.TrailingSlashesIgnored | py-pkg/uptasticsearch/util.py:32-35 | appending any number of slashes to a string not ending in a newline does not change the outcome |
| EsUrlExamples.CanonicalExample | py-pkg/tests/test_util.py:31-32 | `http://es.cluster.com:9200` is returned unchanged |
| EsUrlExamples.BareHostExample | py-pkg/tests/test_util.py:33 | `localhost:9200` becomes `http://localhost:9200` |
| EsUrlExamples.TrailingSlashExample | py-pkg/tests/test_util.py:39 | `http://es.cluster.com:9200///` becomes `http://es.cluster.com:9200` |
| EsUrlExamples.MissingProtocolExample | py-pkg/tests/test_util.py:44 | `es.cluster.com:9200/` loses its slash and gains `http://`: it becomes `http://es.cluster.com:9200` |
| EsUrlExamples.AddrHasNoProtocol | py-pkg/uptasticsearch/util.py:46-53 | a string the host pattern matches whole has no protocol, so the repair step never sees a protocol in the host it keeps |
| EsUrlExamples.BrokenProtocolExample | py-pkg/tests/test_util.py:45 | `http:/es.cluster.com:9200/` becomes `http://es.cluster.com:9200` |
| EsUrlExamples.MissingPortExamples | py-pkg/tests/test_util.py:50-53 | `es.cluster.com/` and `es.cluster.com` fail with the port error |
| EsUrlExamples.SpaceExamples | py-pkg/tests/test_util.py:60-67 | each of the four nonsense strings fails with the space error, even the ones that also have a protocol and a port |
| Duration.UnitLetter | py-pkg/uptasticsearch/util.py:79 | the unit is the letter that ends the string, before a final newline if there is one; there is none when no letter ends it (a definition: it carries no contract; `SplitUnit` states it for `<digits><letter>`) |
| Duration.IsDecimal | py-pkg/uptasticsearch/util.py:82 | the strings the model's `int()` accepts: one or more ASCII digits (a definition: it carries no contract; the difference from Python's `int()` is under "## Left out") |
| Duration.DecimalValue | py-pkg/uptasticsearch/util.py:82 | the value `int()` gives a digit string; it is zero exactly when every digit is `0` |
| Duration.RemoveAll | py-pkg/uptasticsearch/util.py:82 | deleting the unit letter leaves no occurrence of it and keeps the count of every other character |
| Duration.RemoveAllConcat | py-pkg/uptasticsearch/util.py:82 | deleting the letter from a concatenation deletes it from each piece and keeps the pieces in order, so what is left keeps the order of the input |
| Duration.DecimalRoundTrip | py-pkg/uptasticsearch/util.py:82 | reading back the decimal spelling of `n` gives `n` |
| Duration.ConvertToSec | py-pkg/uptasticsearch/util.py:61-104 | fails with the missing-unit error exactly when the string has no trailing letter; succeeds exactly when the unit is in the table and the rest (the unit letter deleted everywhere) is an integer, and the value is that integer times the unit's seconds; a unit letter with a rest that is not an integer gives the not-an-integer error carrying that rest; a rest that is an integer with a letter outside the table gives the unknown-unit error for that letter, and only then |
| DurationProperties.SplitUnit | py-pkg/uptasticsearch/util.py:79-82 | for digits followed by a letter, the letter is the unit and deleting it leaves the digits |
| DurationProperties.ConvertDigitsUnit | py-pkg/uptasticsearch/util.py:85-104 | digits followed by `s`, `m`, `h`, `d` or `w` give the digits' value times 1, 60, 3600, 86400 or 604800 |
| DurationProperties.ConvertNumberUnit | py-pkg/uptasticsearch/util.py:85-104 | the decimal spelling of `n` followed by a unit gives `n` times that unit's seconds |
| DurationProperties.ConvertUnknownUnit | py-pkg/uptasticsearch/util.py:94-100 | digits followed by a letter outside the table fail with the unknown-unit error |
| DurationProperties.SingleDigit | py-pkg/uptasticsearch/util.py:85-104 | one digit followed by a unit from the table gives the digit's value times that unit's seconds |
| DurationProperties.ShortUnitExamples | py-pkg/tests/test_util.py:92-93 | `1s` is 1 second and `1m` is 60 |
| DurationProperties.MinuteHourExamples | py-pkg/tests/test_util.py:94-95 | `5m` is 300 seconds and `1h` is 3600 |
| DurationProperties.LongUnitExamples | py-pkg/tests/test_util.py:96-97 | `1d` is 86400 seconds and `2w` is 1209600 |
| DurationProperties.NotAnIntegerExample | py-pkg/tests/test_util.py:85-86 | `cactus` fails because, once its unit letter `s` is deleted, `cactu` is not an integer |
| DurationProperties.UnknownUnitExample | py-pkg/tests/test_util.py:87-88 | `1y` fails with the unknown-unit error for `y` |
| Strategy.TotalHits | py-pkg/uptasticsearch/clients.py:36-42 | the total is readable exactly when its shape matches the class: an integer for 1/2/5/6 and the base, an object for 7 (`hits.total.value`); it is then that number, and a total of the wrong shape gives the unreadable-total error (the `TypeError`) |
| Strategy.InitialRequest | py-pkg/uptasticsearch/clients.py:62-68 | the first request goes to the index search endpoint of the given index and type, and the cluster cannot read it as a continuation request |
| Strategy.ReportedTotal | py-pkg/uptasticsearch/clients.py:129-137 | the total a cluster of a given version reports reads back as that number for that version's class |
| Strategy.ContinuationRequest | py-pkg/uptasticsearch/clients.py:88-127 | the base class has no encoding and fails with the not-implemented error (the `NotImplementedError`); every other class posts to the scroll endpoint a request from which the lifetime and scroll id read back unchanged; only version 1 omits the JSON content type |
| Clients.EffectiveTarget | py-pkg/uptasticsearch/clients.py:71-72 | the target never exceeds the server total; with a cap it is the smaller of the two, without one it is the total |
| Clients.Accumulated | py-pkg/uptasticsearch/clients.py:74-81 | the `results` list after `n` answers: the `_source` values of the first `n` pages, in order (a definition: it carries no contract) |
| Clients.Stops | py-pkg/uptasticsearch/clients.py:77 | the loop condition is false after `n` answers: the last page had no hits, or the results already reach the target (a definition: it carries no contract) |
| Clients.FetchCount | py-pkg/uptasticsearch/clients.py:74-81 | the number of answers read is the first at which the last page was empty or the results reach the target, and it is at most one more than the script's length |
| Clients.Finish | py-pkg/uptasticsearch/clients.py:83-86 | success exactly when enough results arrived; then exactly `target` results, a prefix of what arrived; otherwise the "Expected N Results" error |
| Clients.Search | py-pkg/uptasticsearch/clients.py:44-86 | a bad lifetime fails before any request; the first request is the query; the total comes from the first page only; the requests sent are exactly those the loop condition calls for, each continuation carrying the previous answer's scroll id; a target of 0 sends no continuation; a success is a prefix of the fetched documents; a short result fails only after an empty page |
| Clients.NewClient | py-pkg/uptasticsearch/clients.py:32-34 | construction succeeds exactly when the URL formats; the client keeps its class and holds the formatted URL, which is canonical; a failure is the formatting error itself |
| Clients.MajorVersion | py-pkg/uptasticsearch/clients.py:143 | the major version is the prefix before the first dot, and contains no dot |
| Clients.VariantFor | py-pkg/uptasticsearch/clients.py:145-151 | exactly `1`, `2`, `5`, `6`, `7` select a class, and the class selected serves that major version |
| Clients.Factory | py-pkg/uptasticsearch/clients.py:140-151 | a bad URL fails first; an unknown major version fails with the lookup error; otherwise the client has the class for the major version and the URL formatted once, even though the constructor formats it again |
| ClientsProperties.MajorOfDotted | py-pkg/uptasticsearch/clients.py:143 | for a dotless `p`, the major version of `p.rest` is `p` |
| ClientsProperties.FactoryPicksVariant | py-pkg/uptasticsearch/clients.py:143-151 | every class is selected by its own major version, whatever follows the first dot |
| ClientsProperties.VersionExamples | py-pkg/uptasticsearch/clients.py:143-151 | `7.10.2` selects the 7.x class, `6.8.0` the 6.x class; `3.0.0` and `10.1.0` select nothing |
| ClientsProperties.ThreePageScroll | py-pkg/uptasticsearch/clients.py:74-86 | a total of 5 delivered as 2, 2 and 1 is read in exactly three answers and returned in full |
| ClientsProperties.CapOnFirstPage | py-pkg/uptasticsearch/clients.py:71-86 | a cap of 2 against a first page of 4 sends no continuation and returns the first 2 documents |
| ClientsProperties.ExhaustedEarly | py-pkg/uptasticsearch/clients.py:77-84 | a total of 4 with an empty second page after 2 documents fails with "Expected 4, got 2" |

## Left out

- Type checks: the `TypeError` for a non-string argument to `_format_es_url` or `convert_to_sec` cannot arise in the typed model.
- Duration.ConvertToSec: the model's `int()` accepts only non-empty ASCII digit strings. Python's `int()` also accepts a sign, surrounding whitespace, `_` between digits and non-ASCII digits. On such inputs the model reports `NotAnInteger` where Python returns a number. One case is `"5m\n"`: deleting the unit leaves `"5\n"`.
- `HttpClient`: sessions, retries and backoff are network I/O. The cluster is a scripted page sequence. The version probe `GET <url>` is replaced by the version string it would return.
- JSON encoding and decoding of bodies and responses. Responses missing `hits`, `_source` or `version` raise `KeyError` in Python and are not modelled. Only the shape of `hits.total` is.
- `os.path.join` URL assembly: request targets are abstract (`IndexSearch(index, docType)`, `ScrollEndpoint`).
- The console warning printed when no protocol is given.
- Negative `max_hits` and negative totals: Python's negative slicing would drop elements from the end. The cap is an `Option<nat>` and totals are `nat`.
- The `relation` field of a 7.x total is carried but ignored, as the source ignores it.
- Strategy.TotalHits: for the base and 1/2/5/6 classes, an object total raises `TypeError` in Python at the first comparison rather than at the lookup. The model reports it at the lookup. In both, the error comes before any continuation request and nothing is returned.
- `fetch_all.es_search` (the aggregation gate and the table flattening) and `aggs_parsers.py`: glue over the network client and pandas, outside this core.
- Clearing the scroll context after a search: the source never does it.
- The default arguments of `search` (`index=""`, `doc_type=""`, `scroll_context_timer="1m"`, `page_size=10000`, `max_hits=None`): `Clients.Search` takes every argument explicitly, and a caller relying on a default passes that value.
