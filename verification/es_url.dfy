/** `_format_es_url`: validation and repair of an Elasticsearch endpoint
    string (py-pkg/uptasticsearch/util.py). The three regular expressions of
    the source are written out as predicates over characters. */
module EsUrl {
  import opened Wrappers
  import opened Text

  /** Both failures are a Python `ValueError`; the message differs. */
  datatype UrlError = LiteralSpace | NoPort

  // ---------------------------------------------------------------------
  // Step 2: `re.sub('/+$', '', s)`
  // ---------------------------------------------------------------------

  /** `s` without the run of '/' characters that ends it. */
  function DropSlashes(s: string): (r: string)
    ensures r <= s
    ensures |r| == 0 || r[|r| - 1] != '/'
    ensures forall i :: |r| <= i < |s| ==> s[i] == '/'
  {
    if |s| > 0 && s[|s| - 1] == '/' then DropSlashes(s[..|s| - 1]) else s
  }

  /** The substitution removes the slash run that ends `Body(s)`; a final
      newline, if there is one, stays. */
  function StripSlashes(s: string): string
  {
    DropSlashes(Body(s)) + NewlineTail(s)
  }

  /** What the substitution leaves: a final newline stays in place, and
      before it the whole run of '/' that ended the rest is gone. */
  lemma StripSlashesShape(s: string)
    ensures var r := StripSlashes(s);
      && |NewlineTail(s)| <= |r| && r[|r| - |NewlineTail(s)|..] == NewlineTail(s)
      && var d := r[..|r| - |NewlineTail(s)|];
      && d <= Body(s)
      && (|d| == 0 || d[|d| - 1] != '/')
      && forall i :: |d| <= i < |Body(s)| ==> Body(s)[i] == '/'
  {
    var r := StripSlashes(s);
    assert r[..|r| - |NewlineTail(s)|] == DropSlashes(Body(s));
  }

  // ---------------------------------------------------------------------
  // Step 3: `:[0-9]+$`, step 4: `^[A-Za-z]+://`
  // ---------------------------------------------------------------------

  /** `b` ends in ':' followed by one or more digits. */
  predicate PortAtEnd(b: string) {
    exists k :: 0 <= k < |b| - 1 && b[k] == ':' && AllDigits(b[k + 1..])
  }

  /** `re.search(':[0-9]+$', s)` succeeds. */
  predicate HasPort(s: string)
  {
    PortAtEnd(Body(s))
  }

  /** A string with a port holds a ':' and ends in a digit (before a final
      newline). */
  lemma PortEndsInDigit(s: string)
    requires HasPort(s)
    ensures ':' in Body(s) && IsDigit(Body(s)[|Body(s)| - 1])
  {
    var b := Body(s);
    var k :| 0 <= k < |b| - 1 && b[k] == ':' && AllDigits(b[k + 1..]);
    assert b[|b| - 1] == b[k + 1..][|b| - k - 2];
  }

  /** `re.search('^[A-Za-z]+://', s)` succeeds. */
  predicate HasProtocol(s: string)
  {
    exists k :: 0 < k <= |s| - 3 && AllLetters(s[..k]) && s[k..k + 3] == "://"
  }

  // ---------------------------------------------------------------------
  // Step 5: `re.search('(\.?[A-Za-z0-9]+)*:[0-9]+$', s)`
  // ---------------------------------------------------------------------

  /** The strings `(\.?[A-Za-z0-9]+)*` matches, described by their characters:
      letters, digits and dots, where every dot is followed by a letter or a
      digit. `HostGroupsMatch` below shows this is the regular expression. */
  predicate HostChars(h: string) {
    && (forall i :: 0 <= i < |h| ==> IsAlnum(h[i]) || h[i] == '.')
    && (forall i :: 0 <= i < |h| && h[i] == '.' ==> i + 1 < |h| && IsAlnum(h[i + 1]))
  }

  /** The strings `(\.?[A-Za-z0-9]+)*:[0-9]+` matches in full. */
  predicate AddrText(w: string) {
    exists k :: 0 <= k < |w| - 1 && w[k] == ':' && HostChars(w[..k]) && AllDigits(w[k + 1..])
  }

  /** `m` is the match `re.search` reports in `b`: a suffix of `b` in the
      language, and no earlier start position gives a match. */
  ghost predicate LeftmostAddr(m: string, b: string) {
    && |m| <= |b|
    && m == b[|b| - |m|..]
    && AddrText(m)
    && forall j :: 0 <= j < |b| - |m| ==> !AddrText(b[j..])
  }

  /** The scan of start positions a regex search performs, from `i` on. */
  function FirstAddrFrom(b: string, i: nat): (j: nat)
    requires i <= |b|
    ensures i <= j <= |b|
    ensures j < |b| ==> AddrText(b[j..])
    ensures forall k :: i <= k < j ==> !AddrText(b[k..])
    decreases |b| - i
  {
    if i == |b| || AddrText(b[i..]) then i else FirstAddrFrom(b, i + 1)
  }

  lemma PortIsAddr(b: string, k: nat)
    requires k < |b| - 1 && b[k] == ':' && AllDigits(b[k + 1..])
    ensures AddrText(b[k..])
  {
    var w := b[k..];
    assert w[0] == ':' && w[..0] == "" && w[1..] == b[k + 1..];
  }

  /** The host part kept when no protocol was given. */
  function RepairedHost(b: string): (m: string)
    requires PortAtEnd(b)
    ensures LeftmostAddr(m, b)
  {
    var k :| 0 <= k < |b| - 1 && b[k] == ':' && AllDigits(b[k + 1..]);
    PortIsAddr(b, k);
    var j := FirstAddrFrom(b, 0);
    b[j..]
  }

  // ---------------------------------------------------------------------
  // The whole function
  // ---------------------------------------------------------------------

  /** What the function promises of a successful result: no space, a
      protocol, and a port at the `$` position. */
  predicate Canonical(u: string) {
    ' ' !in u && HasProtocol(u) && HasPort(u)
  }

  function FormatEsUrl(s: string): (r: Result<string, UrlError>)
    ensures r == Failure(LiteralSpace) <==> ' ' in s
    ensures r == Failure(NoPort) <==> ' ' !in s && !HasPort(StripSlashes(s))
    ensures r.Success? ==> Canonical(r.value)
    ensures r.Success? ==> r.value[|r.value| - 1] != '/'
    ensures r.Success? && HasProtocol(StripSlashes(s)) ==> r.value == StripSlashes(s)
    ensures r.Success? && !HasProtocol(StripSlashes(s)) ==>
      && |r.value| >= 7
      && r.value[..7] == "http://"
      && LeftmostAddr(r.value[7..], Body(StripSlashes(s)))
  {
    if ' ' in s then Failure(LiteralSpace)
    else
      var t := StripSlashes(s);
      StripKeepsNoSpace(s);
      if !HasPort(t) then Failure(NoPort)
      else Success(ProtocolUrl(t))
  }

  /** The last step, on an endpoint with a port: one with a protocol is
      kept, one without is repaired. */
  function ProtocolUrl(t: string): (u: string)
    requires ' ' !in t && ' ' !in Body(t) && HasPort(t)
    ensures Canonical(u) && u[|u| - 1] != '/'
    ensures HasProtocol(t) ==> u == t
    ensures !HasProtocol(t) ==> |u| >= 7 && u[..7] == "http://" && LeftmostAddr(u[7..], Body(t))
  {
    if HasProtocol(t) then
      PortedEndsWell(t);
      t
    else RepairedUrl(t)
  }

  /** The repair for an endpoint without a protocol: `http://` and the
      leftmost match of the host pattern. */
  function RepairedUrl(t: string): (u: string)
    requires ' ' !in Body(t) && HasPort(t)
    ensures Canonical(u) && u[|u| - 1] != '/'
    ensures |u| >= 7 && u[..7] == "http://" && LeftmostAddr(u[7..], Body(t))
  {
    var host := RepairedHost(Body(t));
    RepairIsCanonical(host, Body(t));
    "http://" + host
  }

  /** Stripping slashes brings in no character, so no space either. */
  lemma StripKeepsNoSpace(s: string)
    requires ' ' !in s
    ensures ' ' !in StripSlashes(s) && ' ' !in Body(StripSlashes(s))
  {
    var t := StripSlashes(s);
    var d := DropSlashes(Body(s));
    assert Body(t) <= t;
    forall i | 0 <= i < |t| ensures t[i] != ' ' {
      if i < |d| {
        assert t[i] == d[i] == Body(s)[i] == s[i];
      } else {
        assert t[i] == NewlineTail(s)[i - |d|];
        assert NewlineTail(s)[i - |d|] == s[|Body(s)| + i - |d|];
      }
    }
  }

  /** A string with a port does not end in '/'. */
  lemma PortedEndsWell(t: string)
    requires HasPort(t)
    ensures |t| > 0 && t[|t| - 1] != '/'
  {
    PortEndsInDigit(t);
    if !EndsWithNewline(t) {
      assert Body(t) == t;
    }
  }

  lemma RepairIsCanonical(host: string, b: string)
    requires ' ' !in b
    requires LeftmostAddr(host, b)
    ensures Canonical("http://" + host)
    ensures ("http://" + host)[|"http://" + host| - 1] != '/'
  {
    HttpPrefix(host);
    RepairKeepsPort(host);
    RepairHasNoSpace(host, b);
  }

  lemma HttpPrefix(host: string)
    ensures HasProtocol("http://" + host)
  {
    var u := "http://" + host;
    assert u[..4] == "http" && u[4..7] == "://";
  }

  lemma RepairKeepsPort(host: string)
    requires AddrText(host)
    ensures HasPort("http://" + host)
    ensures IsDigit(("http://" + host)[|"http://" + host| - 1])
  {
    var u := "http://" + host;
    var k :| 0 <= k < |host| - 1 && host[k] == ':' && HostChars(host[..k]) && AllDigits(host[k + 1..]);
    assert u[7 + k + 1..] == host[k + 1..];
    assert IsDigit(host[|host| - 1]) by { assert host[|host| - 1] == host[k + 1..][|host| - k - 2]; }
    assert u[|u| - 1] == host[|host| - 1];
    assert u[7 + k] == ':';
  }

  lemma RepairHasNoSpace(host: string, b: string)
    requires ' ' !in b
    requires |host| <= |b| && host == b[|b| - |host|..]
    ensures ' ' !in "http://" + host
  {
    var u := "http://" + host;
    forall i | 0 <= i < |u| ensures u[i] != ' ' {
      if i >= 7 {
        assert u[i] == host[i - 7] == b[|b| - |host| + i - 7];
      }
    }
  }
}

/** Properties of `_format_es_url` that relate several calls. */
module EsUrlProperties {
  import opened Wrappers
  import opened Text
  import opened EsUrl

  /** A string that already has a port at the `$` position keeps its slashes
      and newline: there is no trailing slash run to remove. */
  lemma PortedIsStripped(s: string)
    requires HasPort(s)
    ensures StripSlashes(s) == s
  {
    var b := Body(s);
    var k :| 0 <= k < |b| - 1 && b[k] == ':' && AllDigits(b[k + 1..]);
    assert b[|b| - 1] == b[k + 1..][|b| - k - 2];
  }

  /** An endpoint that is already well formed is returned unchanged. */
  lemma CanonicalIsFixed(u: string)
    requires Canonical(u)
    ensures FormatEsUrl(u) == Success(u)
  {
    PortedIsStripped(u);
  }

  /** The factory formats the URL and the constructor formats it again; the
      second pass changes nothing. */
  lemma FormatIdempotent(s: string)
    requires FormatEsUrl(s).Success?
    ensures FormatEsUrl(FormatEsUrl(s).value) == FormatEsUrl(s)
  {
    CanonicalIsFixed(FormatEsUrl(s).value);
  }

  function Slashes(n: nat): (r: string)
    ensures |r| == n
    ensures forall i :: 0 <= i < n ==> r[i] == '/'
  {
    if n == 0 then "" else Slashes(n - 1) + "/"
  }

  /** Any number of trailing slashes is removed before anything else looks
      at the string. A string that ends in a newline is the exception: `$`
      then sits before the newline, and slashes after it are not trailing. */
  lemma TrailingSlashesIgnored(s: string, n: nat)
    requires !EndsWithNewline(s)
    ensures FormatEsUrl(s + Slashes(n)) == FormatEsUrl(s)
  {
    var t := s + Slashes(n);
    assert ' ' in t <==> ' ' in s by {
      if ' ' in t {
        var i :| 0 <= i < |t| && t[i] == ' ';
        assert i < |s|;
        assert s[i] == t[i];
      }
      if ' ' in s {
        var i :| 0 <= i < |s| && s[i] == ' ';
        assert t[i] == ' ';
      }
    }
    if n > 0 {
      assert !EndsWithNewline(t) by { assert t[|t| - 1] == Slashes(n)[n - 1]; }
      DropSlashesAppended(s, n);
    }
  }

  lemma {:induction false} DropSlashesAppended(s: string, n: nat)
    ensures DropSlashes(s + Slashes(n)) == DropSlashes(s)
  {
    if n > 0 {
      var t := s + Slashes(n);
      assert t[|t| - 1] == '/';
      assert t[..|t| - 1] == s + Slashes(n - 1);
      DropSlashesAppended(s, n - 1);
    } else {
      assert s + Slashes(n) == s;
    }
  }

  /** One iteration of the group `(\.?[A-Za-z0-9]+)`. */
  predicate HostGroup(p: string) {
    || (|p| >= 1 && AllAlnum(p))
    || (|p| >= 2 && p[0] == '.' && AllAlnum(p[1..]))
  }

  /** `(\.?[A-Za-z0-9]+)*` read as the regular expression: no iteration, or
      one iteration followed by what the star matches of the rest. */
  ghost predicate HostGroups(h: string)
    decreases |h|
  {
    |h| == 0 || exists j :: 0 < j <= |h| && HostGroup(h[..j]) && HostGroups(h[j..])
  }

  /** The character-level description the model uses is exactly the
      language of the host group of the regular expression. */
  lemma {:induction false} HostGroupsMatch(h: string)
    ensures HostGroups(h) <==> HostChars(h)
    decreases |h|
  {
    if |h| > 0 {
      if HostGroups(h) {
        var j :| 0 < j <= |h| && HostGroup(h[..j]) && HostGroups(h[j..]);
        HostGroupsMatch(h[j..]);
        GroupThenHost(h, j);
      }
      if HostChars(h) {
        var start := if h[0] == '.' then 1 else 0;
        var j := NextDot(h, start + 1);
        assert AllAlnum(h[..j][start..]) by {
          forall i | start <= i < j ensures IsAlnum(h[i]) {
            if i == start && start == 1 {
            } else {
              assert h[i] != '.';
            }
          }
        }
        assert HostGroup(h[..j]) by {
          if start == 1 { assert h[..j][1..] == h[..j][start..]; }
          else { assert h[..j] == h[..j][start..]; }
        }
        assert HostChars(h[j..]) by {
          forall i | 0 <= i < |h[j..]| && h[j..][i] == '.'
            ensures i + 1 < |h[j..]| && IsAlnum(h[j..][i + 1])
          {
            assert h[j + i] == '.';
          }
        }
        HostGroupsMatch(h[j..]);
      }
    }
  }

  /** The first dot at or after `i`, or the end of `h`. */
  function NextDot(h: string, i: nat): (j: nat)
    requires i <= |h|
    ensures i <= j <= |h|
    ensures j < |h| ==> h[j] == '.'
    ensures forall k :: i <= k < j ==> h[k] != '.'
    decreases |h| - i
  {
    if i == |h| || h[i] == '.' then i else NextDot(h, i + 1)
  }

  lemma GroupThenHost(h: string, j: nat)
    requires 0 < j <= |h| && HostGroup(h[..j]) && HostChars(h[j..])
    ensures HostChars(h)
  {
    var p := h[..j];
    var rest := h[j..];
    forall i | 0 <= i < |h| ensures IsAlnum(h[i]) || h[i] == '.' {
      if i < j {
        assert h[i] == p[i];
        if p[0] == '.' && i > 0 { assert p[i] == p[1..][i - 1]; }
      } else {
        assert h[i] == rest[i - j];
      }
    }
    assert forall i :: 0 < i < j ==> IsAlnum(h[i]) by {
      forall i | 0 < i < j ensures IsAlnum(h[i]) {
        assert h[i] == p[i];
        if p[0] == '.' { assert p[i] == p[1..][i - 1]; }
      }
    }
    forall i | 0 <= i < |h| && h[i] == '.' ensures i + 1 < |h| && IsAlnum(h[i + 1]) {
      if i < j {
        assert h[1] == p[1..][0];
      } else {
        assert rest[i - j] == '.';
      }
    }
  }
}

/** The examples of py-pkg/tests/test_util.py, as lemmas. */
module EsUrlExamples {
  import opened Wrappers
  import opened Text
  import opened EsUrl
  import opened EsUrlProperties

  lemma ProtocolHasSlash(s: string)
    requires HasProtocol(s)
    ensures '/' in s
  {
    var k :| 0 < k <= |s| - 3 && AllLetters(s[..k]) && s[k..k + 3] == "://";
    assert s[k + 1] == '/';
  }

  lemma PortHasColon(b: string)
    requires PortAtEnd(b)
    ensures ':' in b
  {
  }

  lemma AddrHasNoSlash(w: string)
    requires AddrText(w)
    ensures '/' !in w
  {
    var k :| 0 <= k < |w| - 1 && w[k] == ':' && HostChars(w[..k]) && AllDigits(w[k + 1..]);
    forall i | 0 <= i < |w| ensures w[i] != '/' {
      if i < k { assert w[i] == w[..k][i]; }
      if i > k { assert w[i] == w[k + 1..][i - k - 1]; }
    }
  }

  lemma CanonicalExample()
    ensures FormatEsUrl("http://es.cluster.com:9200") == Success("http://es.cluster.com:9200")
  {
    CanonicalFixed("http://es.cluster.com:9200");
  }

  lemma CanonicalFixed(u: string)
    requires u == "http://es.cluster.com:9200"
    ensures FormatEsUrl(u) == Success(u)
  {
    CanonicalProtocol(u);
    CanonicalPort(u);
    CanonicalNoSpace(u);
    CanonicalIsFixed(u);
  }

  lemma CanonicalNoSpace(u: string)
    requires u == "http://es.cluster.com:9200"
    ensures ' ' !in u
  {
  }

  lemma CanonicalProtocol(u: string)
    requires u == "http://es.cluster.com:9200"
    ensures HasProtocol(u)
  {
    assert u[..4] == "http";
    assert u[4..7] == "://" by { assert u[4] == ':' && u[5] == '/' && u[6] == '/'; }
  }

  lemma CanonicalPort(u: string)
    requires u == "http://es.cluster.com:9200"
    ensures HasPort(u)
  {
    assert u[21] == ':' && u[22..] == "9200";
  }

  lemma BareHostExample()
    ensures FormatEsUrl("localhost:9200") == Success("http://localhost:9200")
  {
    var s := "localhost:9200";
    BareHostFacts(s);
    PortedIsStripped(s);
    var r := FormatEsUrl(s);
    assert r.Success?;
    LeftmostIsWhole(r.value[7..], s);
    SplitAt(r.value, 7);
    assert r.value == "http://" + s;
    BareHostText();
  }

  lemma BareHostFacts(s: string)
    requires s == "localhost:9200"
    ensures ' ' !in s && Body(s) == s
    ensures HasPort(s) && !HasProtocol(s) && AddrText(s)
  {
    BareHostAddr(s);
    AddrHasNoProtocol(s);
    PortIsAddrHere(s);
  }

  lemma BareHostAddr(s: string)
    requires s == "localhost:9200"
    ensures AddrText(s)
  {
    assert s[9] == ':' && s[10..] == "9200";
    assert s[..9] == "localhost";
    assert HostChars(s[..9]);
  }

  lemma PortIsAddrHere(s: string)
    requires s == "localhost:9200"
    ensures ' ' !in s && Body(s) == s && HasPort(s)
  {
    assert s[9] == ':' && s[10..] == "9200";
  }

  lemma BareHostText()
    ensures "http://" + "localhost:9200" == "http://localhost:9200"
  {
  }

  lemma TrailingSlashExample()
    ensures FormatEsUrl("http://es.cluster.com:9200///") == Success("http://es.cluster.com:9200")
  {
    var u := "http://es.cluster.com:9200";
    CanonicalExample();
    assert !EndsWithNewline(u);
    TrailingSlashesIgnored(u, 3);
    TrailingSlashText(u);
  }

  lemma TrailingSlashText(u: string)
    requires u == "http://es.cluster.com:9200"
    ensures u + Slashes(3) == "http://es.cluster.com:9200///"
  {
    assert Slashes(3) == "///";
  }

  lemma MissingPortExamples()
    ensures FormatEsUrl("es.cluster.com/") == Failure(NoPort)
    ensures FormatEsUrl("es.cluster.com") == Failure(NoPort)
  {
    MissingPort("es.cluster.com");
    MissingPortSlash("es.cluster.com", "es.cluster.com/");
  }

  lemma MissingPort(h: string)
    requires h == "es.cluster.com"
    ensures FormatEsUrl(h) == Failure(NoPort)
  {
    ClusterHasNoPort(h);
    assert Body(h) == h && NewlineTail(h) == "";
    assert DropSlashes(h) == h;
  }

  lemma MissingPortSlash(h: string, s: string)
    requires h == "es.cluster.com" && s == "es.cluster.com/"
    ensures FormatEsUrl(s) == FormatEsUrl(h)
  {
    assert !EndsWithNewline(h);
    TrailingSlashesIgnored(h, 1);
    ClusterSlashText(h);
  }

  lemma ClusterHasNoPort(h: string)
    requires h == "es.cluster.com"
    ensures !HasPort(h)
  {
    assert ':' !in h;
    if HasPort(h) { PortHasColon(Body(h)); }
  }

  lemma ClusterSlashText(h: string)
    requires h == "es.cluster.com"
    ensures h + Slashes(1) == "es.cluster.com/"
  {
    assert Slashes(1) == "/";
  }

  lemma SpaceExamples()
    ensures FormatEsUrl("some garbage string") == Failure(LiteralSpace)
    ensures FormatEsUrl("some garbage string that has http:// in it") == Failure(LiteralSpace)
    ensures FormatEsUrl("some garbage string that has http:// in it:9200") == Failure(LiteralSpace)
    // the last literal is written in two pieces only to keep each piece short
    ensures FormatEsUrl("s3:// " + "some garbage string that has http:// in it:9200") == Failure(LiteralSpace)
  {
    assert "some garbage string"[4] == ' ';
    GarbageHasSpace("some garbage string that has http:// in it");
    GarbagePortHasSpace("some garbage string that has http:// in it:9200");
    GarbageProtocolHasSpace("s3:// ", "some garbage string that has http:// in it:9200");
  }

  lemma GarbageHasSpace(s: string)
    requires s == "some garbage string that has http:// in it"
    ensures ' ' in s
  {
    assert s[4] == ' ';
  }

  lemma GarbagePortHasSpace(s: string)
    requires s == "some garbage string that has http:// in it:9200"
    ensures ' ' in s
  {
    assert s[4] == ' ';
  }

  lemma GarbageProtocolHasSpace(p: string, s: string)
    requires p == "s3:// "
    ensures ' ' in p + s
  {
    assert (p + s)[5] == ' ';
  }

  lemma SplitAt(u: string, n: nat)
    requires n <= |u|
    ensures u == u[..n] + u[n..]
  {
  }

  /** When the whole string matches, the leftmost match is all of it. */
  lemma LeftmostIsWhole(m: string, b: string)
    requires AddrText(b) && LeftmostAddr(m, b)
    ensures m == b
  {
    assert b[0..] == b;
  }

  /** The leftmost match is unique: a start position `j` that matches while
      no earlier one does gives the same match. */
  lemma LeftmostAt(m: string, b: string, j: nat)
    requires j < |b| && AddrText(b[j..])
    requires forall i :: 0 <= i < j ==> !AddrText(b[i..])
    requires LeftmostAddr(m, b)
    ensures m == b[j..]
  {
  }

  lemma MissingProtocolExample()
    ensures FormatEsUrl("es.cluster.com:9200/") == Success("http://es.cluster.com:9200")
  {
    var s := "es.cluster.com:9200/";
    var t := "es.cluster.com:9200";
    MissingProtocolStrip(s, t);
    MissingProtocolHost(t);
    var r := FormatEsUrl(s);
    assert r.Success?;
    LeftmostIsWhole(r.value[7..], t);
    SplitAt(r.value, 7);
    MissingProtocolText(t);
  }

  lemma MissingProtocolStrip(s: string, t: string)
    requires s == "es.cluster.com:9200/" && t == "es.cluster.com:9200"
    ensures ' ' !in s && StripSlashes(s) == t && Body(t) == t && HasPort(t)
  {
    assert Body(s) == s && NewlineTail(s) == "";
    assert s[..|s| - 1] == t;
    assert t[14] == ':' && t[15..] == "9200";
    assert DropSlashes(t) == t;
  }

  lemma MissingProtocolHost(t: string)
    requires t == "es.cluster.com:9200"
    ensures !HasProtocol(t) && AddrText(t)
  {
    assert t[14] == ':' && t[15..] == "9200";
    ClusterHostChars(t[..14]);
    AddrHasNoProtocol(t);
  }

  /** A match of the host pattern holds no "://", so it has no protocol. */
  lemma AddrHasNoProtocol(w: string)
    requires AddrText(w)
    ensures !HasProtocol(w)
  {
    if HasProtocol(w) {
      AddrHasNoSlash(w);
      ProtocolHasSlash(w);
    }
  }

  lemma MissingProtocolText(t: string)
    requires t == "es.cluster.com:9200"
    ensures "http://" + t == "http://es.cluster.com:9200"
  {
  }

  lemma BrokenProtocolExample()
    ensures FormatEsUrl("http:/es.cluster.com:9200/") == Success("http://es.cluster.com:9200")
  {
    var s := "http:/es.cluster.com:9200/";
    var t := "http:/es.cluster.com:9200";
    BrokenProtocolFacts(s, t);
    var r := FormatEsUrl(s);
    assert r.Success?;
    LeftmostAt(r.value[7..], t, 6);
    SplitAt(r.value, 7);
    assert r.value == "http://" + t[6..];
    BrokenProtocolText(t);
  }

  lemma BrokenProtocolFacts(s: string, t: string)
    requires s == "http:/es.cluster.com:9200/" && t == "http:/es.cluster.com:9200"
    ensures ' ' !in s && StripSlashes(s) == t && Body(t) == t
    ensures HasPort(t) && !HasProtocol(t)
    ensures AddrText(t[6..]) && forall i :: 0 <= i < 6 ==> !AddrText(t[i..])
  {
    BrokenHasNoSpace(s);
    BrokenStrip(s, t);
    BrokenHasNoProtocol(t);
    BrokenHostMatches(t);
    BrokenEarlierMiss(t);
  }

  lemma BrokenHasNoSpace(s: string)
    requires s == "http:/es.cluster.com:9200/"
    ensures ' ' !in s
  {
  }

  lemma BrokenStrip(s: string, t: string)
    requires s == "http:/es.cluster.com:9200/" && t == "http:/es.cluster.com:9200"
    ensures StripSlashes(s) == t && Body(t) == t && HasPort(t)
  {
    assert Body(s) == s && NewlineTail(s) == "";
    assert s[..|s| - 1] == t;
    assert t[20] == ':' && t[21..] == "9200";
    assert DropSlashes(t) == t;
  }

  lemma BrokenHasNoProtocol(t: string)
    requires t == "http:/es.cluster.com:9200"
    ensures !HasProtocol(t)
  {
    forall k | 0 < k <= |t| - 3 ensures !(AllLetters(t[..k]) && t[k..k + 3] == "://") {
      if k < 4 {
        assert t[k..k + 3][0] == t[k] != ':';
      } else if k == 4 {
        assert t[k..k + 3][2] == t[6] != '/';
      } else {
        assert t[..k][4] == ':';
      }
    }
  }

  lemma BrokenEarlierMiss(t: string)
    requires t == "http:/es.cluster.com:9200"
    ensures forall i :: 0 <= i < 6 ==> !AddrText(t[i..])
  {
    forall i | 0 <= i < 6 ensures !AddrText(t[i..]) {
      assert t[i..][5 - i] == '/';
      if AddrText(t[i..]) { AddrHasNoSlash(t[i..]); }
    }
  }

  lemma BrokenHostMatches(t: string)
    requires t == "http:/es.cluster.com:9200"
    ensures AddrText(t[6..])
  {
    var m := t[6..];
    assert m[14] == ':' && m[15..] == "9200";
    assert m[..14] == "es.cluster.com";
    ClusterHostChars(m[..14]);
  }

  lemma ClusterHostChars(h: string)
    requires h == "es.cluster.com"
    ensures HostChars(h)
  {
    forall i | 0 <= i < |h| && h[i] == '.' ensures i + 1 < |h| && IsAlnum(h[i + 1]) {
      assert i == 2 || i == 10;
    }
  }

  lemma BrokenProtocolText(t: string)
    requires t == "http:/es.cluster.com:9200"
    ensures "http://" + t[6..] == "http://es.cluster.com:9200"
  {
  }
}
