/**
 * URL handling of the soft-redirect module: `self.local`, the cleaning of the
 * request URL, the list of `/`-boundary prefixes (`partialUrls`) and the
 * segment count `url.split('/').length` used to rank historic URLs.
 */
module Urls {
  import opened JsBuiltins

  // ---------------------------------------------------------------------------
  // self.local
  // ---------------------------------------------------------------------------

  /** Length of an `http:` or `https:` scheme at the start of `u` (0 when there is none). */
  function SchemeLength(u: string): nat {
    if IsPrefix("https:", u) then 6 else if IsPrefix("http:", u) then 5 else 0
  }

  /**
   * `self.local`: removes the match of `^(https?:)?\/\/[^/]+`, that is an optional
   * `http:` or `https:`, then `//`, then a non-empty host (with any port and
   * credentials) running up to the next `/` or to the end.
   */
  function Local(u: string): (r: string)
    ensures IsSuffix(r, u)
    ensures !(IsPrefix("//", u) || IsPrefix("http://", u) || IsPrefix("https://", u)) ==> r == u
    ensures r != u ==> r == [] || r[0] == '/'
  {
    var p := SchemeLength(u);
    if p + 2 < |u| && u[p..p + 2] == "//" && u[p + 2] != '/' then
      SlashesAfterScheme(u);
      u[p + 2 + IndexOf(u[p + 2..], '/')..]
    else
      u
  }

  /** `//` right after the scheme (if any) starts one of the three prefixes `Local` strips. */
  lemma SlashesAfterScheme(u: string)
    requires SchemeLength(u) + 2 <= |u| && u[SchemeLength(u)..SchemeLength(u) + 2] == "//"
    ensures IsPrefix("//", u) || IsPrefix("http://", u) || IsPrefix("https://", u)
  {
    var p := SchemeLength(u);
    assert u[..p + 2] == u[..p] + u[p..p + 2];
  }

  /** The scheme of a URL that goes on with `/` is measured exactly. */
  lemma SchemeLengthOf(scheme: string, tail: string)
    requires scheme == "" || scheme == "http:" || scheme == "https:"
    requires |tail| > 0 && tail[0] == '/'
    ensures SchemeLength(scheme + tail) == |scheme|
  {
    var u := scheme + tail;
    if scheme == "" {
      assert u[0] == '/';
    } else if scheme == "http:" {
      assert u[..5] == "http:" && u[4] == ':';
    } else {
      assert u[..6] == "https:";
    }
  }

  /** In a host followed by a path, the first `/` is the one that starts the path. */
  lemma HostEnd(host: string, rest: string)
    requires '/' !in host
    requires rest == [] || rest[0] == '/'
    ensures IndexOf(host + rest, '/') == |host|
  {
    var hr := host + rest;
    forall j | 0 <= j < |host| ensures hr[j] != '/' {
      assert hr[j] == host[j];
    }
    if rest != [] {
      assert hr[|host|] == rest[0];
    }
    IndexOfIs(hr, '/', |host|);
  }

  /** `Local` on a URL whose scheme, `//` and first host character are known. */
  lemma LocalAt(u: string, p: nat, h: nat)
    requires SchemeLength(u) == p && p + 2 < |u| && u[p..p + 2] == "//" && u[p + 2] != '/'
    requires IndexOf(u[p + 2..], '/') == h
    ensures Local(u) == u[p + 2 + h..]
  {
  }

  /** Where the parts of `scheme + "//" + host + rest` sit. */
  lemma AbsoluteLayout(scheme: string, host: string, rest: string)
    requires host != []
    ensures var u := scheme + "//" + host + rest;
      var p := |scheme|;
      u == scheme + ("//" + host + rest)
      && p + 2 < |u| && u[p..p + 2] == "//" && u[p + 2] == host[0]
      && u[p + 2..] == host + rest && u[p + 2 + |host|..] == rest
  {
    var u := scheme + "//" + host + rest;
    var p := |scheme|;
    assert u == scheme + "//" + (host + rest);
    assert u[p + 2..] == host + rest;
    assert u[p + 2 + |host|..] == (host + rest)[|host|..];
  }

  /** An absolute URL loses its scheme, `//` and host: what remains is its path (and query). */
  lemma LocalStripsHost(scheme: string, host: string, rest: string)
    requires scheme == "" || scheme == "http:" || scheme == "https:"
    requires host != [] && '/' !in host
    requires rest == [] || rest[0] == '/'
    ensures Local(scheme + "//" + host + rest) == rest
  {
    var u := scheme + "//" + host + rest;
    AbsoluteLayout(scheme, host, rest);
    SchemeLengthOf(scheme, "//" + host + rest);
    HostEnd(host, rest);
    LocalAt(u, |scheme|, |host|);
  }

  /** `[^/]+` needs a host character: when `//` after the scheme is followed by nothing or by `/`, the URL is kept. */
  lemma LocalNeedsHost(u: string)
    requires SchemeLength(u) + 2 <= |u| && u[SchemeLength(u)..SchemeLength(u) + 2] == "//"
    requires SchemeLength(u) + 2 == |u| || u[SchemeLength(u) + 2] == '/'
    ensures Local(u) == u
  {
  }

  /** The host must have at least one character: a bare `//`, or `///` after a scheme, is kept. */
  lemma LocalKeepsEmptyHost()
    ensures Local("//") == "//"
    ensures Local("http:///x") == "http:///x"
  {
    assert SchemeLength("//") == 0;
    assert "//"[0..2] == "//";
    LocalNeedsHost("//");
    var u := "http:///x";
    assert u[..6][5] != "https:"[5];
    assert u[..5] == "http:";
    assert SchemeLength(u) == 5;
    assert u[5..7] == "//" && u[7] == '/';
    LocalNeedsHost(u);
  }

  // ---------------------------------------------------------------------------
  // Cleaning the request URL
  // ---------------------------------------------------------------------------

  /** The characters JavaScript's `.` does not match. */
  predicate IsLineTerminator(ch: char) {
    ch == '\n' || ch == '\r' || ch == '\U{2028}' || ch == '\U{2029}'
  }

  predicate NoLineTerminator(s: string) {
    forall j :: 0 <= j < |s| ==> !IsLineTerminator(s[j])
  }

  /** Index just past the last line terminator of `s`, 0 when there is none. */
  function LineStart(s: string): (k: nat)
    ensures k <= |s|
    ensures 0 < k ==> IsLineTerminator(s[k - 1])
    ensures NoLineTerminator(s[k..])
  {
    if s == [] then 0
    else if IsLineTerminator(s[|s| - 1]) then |s|
    else
      var k := LineStart(s[..|s| - 1]);
      assert s[k..] == s[..|s| - 1][k..] + [s[|s| - 1]];
      k
  }

  /**
   * `.replace(/\?.*$/, '')`. Since `.` stops at line terminators and `$` is the
   * end of the input, the match starts at the first `?` that has no line
   * terminator after it, and runs to the end.
   */
  function StripQuery(u: string): (r: string)
    ensures IsPrefix(r, u)
    ensures LineStart(u) <= |r| && '?' !in r[LineStart(u)..]
    ensures |r| < |u| ==> u[|r|] == '?'
  {
    var k := LineStart(u);
    var i := IndexOf(u[k..], '?');
    assert u[..k + i][k..] == u[k..][..i];
    u[..k + i]
  }

  /** Number of leading `c` in `s`. */
  function RunLength(s: string, c: char): (n: nat)
    ensures n <= |s|
    ensures forall j :: 0 <= j < n ==> s[j] == c
    ensures n < |s| ==> s[n] != c
  {
    if s == [] || s[0] != c then 0 else 1 + RunLength(s[1..], c)
  }

  /**
   * `.replace(/\/+/, '/')`: without the `g` flag only the FIRST run of slashes
   * becomes a single `/`; the text before it and everything after it are kept.
   */
  function CollapseFirstSlashRun(s: string): (r: string)
    ensures '/' !in s ==> r == s
    ensures '/' in s ==>
      var i := IndexOf(s, '/');
      i < |r| <= |s| && r[..i + 1] == s[..i + 1] && IsSuffix(r[i + 1..], s)
      && (i + 1 < |r| ==> r[i + 1] != '/')
      && (forall j :: i < j < i + 1 + |s| - |r| ==> s[j] == '/')
  {
    var i := IndexOf(s, '/');
    if i == |s| then s
    else
      var n := RunLength(s[i..], '/');
      CollapseAt(s, i, n);
      s[..i] + "/" + s[i + n..]
  }

  /** The shape of the collapse of the slash run of length `n` at `i`. */
  lemma CollapseAt(s: string, i: nat, n: nat)
    requires i < |s| && s[i] == '/' && n == RunLength(s[i..], '/')
    ensures var r := s[..i] + "/" + s[i + n..];
      1 <= n && i + n <= |s| && r == s[..i + 1] + s[i + n..]
      && i < |r| <= |s| && r[..i + 1] == s[..i + 1] && IsSuffix(r[i + 1..], s)
      && (i + 1 < |r| ==> r[i + 1] != '/')
      && (forall j :: i < j < i + 1 + |s| - |r| ==> s[j] == '/')
  {
    var r := s[..i] + "/" + s[i + n..];
    assert r[i + 1..] == s[i + n..];
    assert forall j :: i < j < i + n ==> s[j] == s[i..][j - i];
  }

  /** `cleanUrl` at index.js:51. */
  function CleanUrl(url: string): (clean: string)
    ensures |clean| <= |url|
    ensures forall ch :: ch in clean ==> ch in url
  {
    var stripped := StripQuery(url);
    assert forall ch :: ch in CollapseFirstSlashRun(stripped) ==> ch in url by {
      forall ch | ch in CollapseFirstSlashRun(stripped) ensures ch in url {
        CollapseKeepsChars(stripped, ch);
        assert stripped == url[..|stripped|];
      }
    }
    CollapseFirstSlashRun(stripped)
  }

  lemma NoLineTerminatorLineStart(u: string)
    requires NoLineTerminator(u)
    ensures LineStart(u) == 0
  {
  }

  /** A character of `s` up to `i`, followed by `s` from `j` on, is a character of `s`. */
  lemma InSlices(s: string, i: nat, j: nat, ch: char)
    requires i <= j <= |s| && ch in s[..i] + s[j..]
    ensures ch in s
  {
    var t := s[..i] + s[j..];
    var k :| 0 <= k < |t| && t[k] == ch;
    if k < i {
      assert s[k] == ch;
    } else {
      assert s[k - i + j] == ch;
    }
  }

  /** Every character of the collapsed string comes from the original one. */
  lemma CollapseKeepsChars(s: string, ch: char)
    ensures ch in CollapseFirstSlashRun(s) ==> ch in s
  {
    var i := IndexOf(s, '/');
    if i < |s| {
      var n := RunLength(s[i..], '/');
      CollapseAt(s, i, n);
      if ch in CollapseFirstSlashRun(s) {
        InSlices(s, i + 1, i + n, ch);
      }
    }
  }

  /** For a URL without line terminators, cleaning drops everything from the first `?` on. */
  lemma {:induction false} CleanUrlDropsQuery(url: string)
    requires NoLineTerminator(url)
    ensures StripQuery(url) == url[..IndexOf(url, '?')]
    ensures '?' !in CleanUrl(url)
  {
    NoLineTerminatorLineStart(url);
    assert url[0..] == url;
    assert StripQuery(url)[0..] == StripQuery(url);
    CollapseKeepsChars(StripQuery(url), '?');
  }

  /** Without a `?` there is no query string to strip. */
  lemma StripQueryNoQuery(u: string)
    requires '?' !in u
    ensures StripQuery(u) == u
  {
    var k := LineStart(u);
    var t := u[k..];
    assert forall j :: 0 <= j < |t| ==> t[j] == u[k + j];
    IndexOfIs(t, '?', |t|);
    assert u[..k + |t|] == u;
  }

  /** A string whose first slash run is a single leading `/` is not changed by the collapse. */
  lemma CollapseSingleLeadingSlash(s: string)
    requires |s| > 0 && s[0] == '/' && (|s| == 1 || s[1] != '/')
    ensures CollapseFirstSlashRun(s) == s
  {
    IndexOfIs(s, '/', 0);
    assert s[0..] == s;
    assert RunLength(s[1..], '/') == 0;
    assert RunLength(s, '/') == 1;
    assert s[..0] + "/" + s[1..] == s;
  }

  /** A path with one leading slash and no query string is already clean, however many `//` it has further on. */
  lemma CleanUrlKeepsCleanPath(url: string)
    requires |url| > 0 && url[0] == '/' && (|url| == 1 || url[1] != '/')
    requires '?' !in url
    ensures CleanUrl(url) == url
  {
    StripQueryNoQuery(url);
    CollapseSingleLeadingSlash(url);
  }

  // ---------------------------------------------------------------------------
  // Segment count and prefix list
  // ---------------------------------------------------------------------------

  /** `url.split('/').length`, the rank of a historic URL. */
  function SegmentCount(url: string): (n: nat)
    ensures 1 <= n
  {
    |Split(url, '/')|
  }

  /** A URL has one more segment than it has slashes. */
  lemma SegmentCountIsSlashes(url: string)
    ensures SegmentCount(url) == Count(url, '/') + 1
  {
    SplitLength(url, '/');
  }

  /** Cutting a URL at one of its slashes loses at least that slash's segment. */
  lemma SegmentCountDrops(url: string, k: nat)
    requires k < |url| && url[k] == '/'
    ensures SegmentCount(url[..k]) < SegmentCount(url)
  {
    SegmentCountIsSlashes(url);
    SegmentCountIsSlashes(url[..k]);
    assert url == url[..k] + url[k..];
    CountAppend(url[..k], url[k..], '/');
    assert url[k..][0] == '/';
  }

  /** `url.split(/(?!^)\//)`: split at every `/` except one at index 0. */
  function PathSegments(url: string): (segments: seq<string>)
    ensures |segments| >= 1
    ensures Join(segments, '/') == url
    ensures forall k :: 1 <= k < |segments| ==> '/' !in segments[k]
    ensures |url| > 0 ==> |segments[0]| >= 1 && '/' !in segments[0][1..]
  {
    if url == [] then [url]
    else
      var rest := Split(url[1..], '/');
      SplitJoin(url[1..], '/');
      JoinFront(url[0], rest, '/');
      assert ([url[0]] + rest[0])[1..] == rest[0];
      [[url[0]] + rest[0]] + rest[1..]
  }

  /** The `reduce` at index.js:54-56: each entry is the previous entry, `/`, and the next segment. */
  function Accumulate(segments: seq<string>): (acc: seq<string>)
    ensures |acc| == |segments|
    ensures forall i :: 0 <= i < |acc| ==> acc[i] == Join(segments[..i + 1], '/')
  {
    if segments == [] then []
    else
      var prev := segments[..|segments| - 1];
      var acc := Accumulate(prev);
      var segment := segments[|segments| - 1];
      assert forall j :: 1 <= j <= |prev| ==> segments[..j] == prev[..j];
      assert segments[..|segments|] == segments && prev[..|prev|] == prev;
      acc + [if |segments| == 1 then segment else acc[|acc| - 1] + "/" + segment]
  }

  /** `partialUrls`: split, accumulate, reverse. Entry `i` joins all but the last `i` segments. */
  function PartialUrls(cleanUrl: string): (p: seq<string>)
    ensures |p| == |PathSegments(cleanUrl)| && p[0] == cleanUrl
    ensures forall i :: 0 <= i < |p| ==> p[i] == Join(PathSegments(cleanUrl)[..|p| - i], '/')
  {
    var segments := PathSegments(cleanUrl);
    ReversedAccumulate(segments);
    Reverse(Accumulate(segments))
  }

  lemma ReversedAccumulate(segments: seq<string>)
    requires |segments| >= 1
    ensures var p := Reverse(Accumulate(segments));
      |p| == |segments| && p[0] == Join(segments, '/')
      && forall i :: 0 <= i < |p| ==> p[i] == Join(segments[..|p| - i], '/')
  {
    assert segments[..|segments|] == segments;
  }

  /** Reference for `partialUrls`: the URL, then the ancestors obtained by cutting at its last `/` not at index 0. */
  function Ancestors(url: string): (a: seq<string>)
    ensures |a| >= 1 && a[0] == url
    decreases |url|
  {
    var k := LastIndexOf(url, '/');
    if k <= 0 then [url] else [url] + Ancestors(url[..k])
  }

  /** `p` is `url` itself, or `url` cut just before one of its slashes other than one at index 0. */
  predicate IsBoundaryPrefix(p: string, url: string) {
    p == url || (0 < |p| < |url| && url[..|p|] == p && url[|p|] == '/')
  }

  /** Without a `/` past index 0 the URL is a single segment. */
  lemma PathSegmentsSingle(url: string)
    requires LastIndexOf(url, '/') <= 0
    ensures PathSegments(url) == [url]
  {
    if url != [] {
      var s := url[1..];
      assert '/' !in s by {
        forall j | 0 <= j < |s| ensures s[j] != '/' {
          assert s[j] == url[j + 1];
        }
      }
      SplitNone(s, '/');
      assert [url[0]] + s == url;
    }
  }

  /** The segments of a URL are those of the part before its last `/`, plus what follows that `/`. */
  lemma PathSegmentsSnoc(url: string, k: nat)
    requires k == LastIndexOf(url, '/') && 0 < k
    ensures PathSegments(url) == PathSegments(url[..k]) + [url[k + 1..]]
  {
    var s, tail := url[1..], url[k + 1..];
    assert '/' !in tail by {
      forall j | 0 <= j < |tail| ensures tail[j] != '/' {
        assert tail[j] == url[k + 1 + j];
      }
    }
    assert s[k - 1] == '/' && s[k..] == tail;
    SplitSnoc(s, '/', k - 1);
    var front := Split(url[..k][1..], '/');
    assert s[..k - 1] == url[..k][1..];
    SegmentsOfSnoc(url, front, tail);
  }

  lemma SegmentsOfSnoc(url: string, front: seq<string>, tail: string)
    requires |url| > 0 && |front| >= 1
    requires Split(url[1..], '/') == front + [tail]
    ensures PathSegments(url) == [[url[0]] + front[0]] + front[1..] + [tail]
  {
    assert (front + [tail])[0] == front[0];
    assert (front + [tail])[1..] == front[1..] + [tail];
  }

  /** Cutting at the last `/` not at index 0: the prefix list is the URL, then the prefix list of what precedes that `/`. */
  lemma PartialUrlsSnoc(url: string, k: nat)
    requires k == LastIndexOf(url, '/') && 0 < k
    ensures PartialUrls(url) == [url] + PartialUrls(url[..k])
  {
    PathSegmentsSnoc(url, k);
    var t := PathSegments(url[..k]);
    JoinsOfSnoc(t, url[k + 1..]);
    var p, q := PartialUrls(url), PartialUrls(url[..k]);
    forall i | 1 <= i < |p| ensures p[i] == q[i - 1] {
    }
  }

  /** Appending a segment leaves the joins of the shorter prefixes alone. */
  lemma JoinsOfSnoc(t: seq<string>, x: string)
    ensures forall n :: 1 <= n <= |t| ==> Join((t + [x])[..n], '/') == Join(t[..n], '/')
  {
    forall n | 1 <= n <= |t| ensures Join((t + [x])[..n], '/') == Join(t[..n], '/') {
      assert (t + [x])[..n] == t[..n];
    }
  }

  /** The split/reduce/reverse pipeline computes exactly the ancestor list. */
  lemma {:induction false} PartialUrlsAreAncestors(url: string)
    ensures PartialUrls(url) == Ancestors(url)
    decreases |url|
  {
    var k := LastIndexOf(url, '/');
    if k <= 0 {
      PathSegmentsSingle(url);
      assert Accumulate([url]) == [url];
    } else {
      PartialUrlsAreAncestors(url[..k]);
      PartialUrlsSnoc(url, k);
    }
  }

  /** Every ancestor is a boundary prefix of the URL. */
  lemma {:induction false} AncestorsAreBoundaryPrefixes(url: string)
    ensures forall p :: p in Ancestors(url) ==> IsBoundaryPrefix(p, url)
    decreases |url|
  {
    var k := LastIndexOf(url, '/');
    if 0 < k {
      AncestorsAreBoundaryPrefixes(url[..k]);
      forall p | p in Ancestors(url[..k]) ensures IsBoundaryPrefix(p, url) {
        if p != url[..k] {
          assert url[..k][..|p|] == url[..|p|];
        }
      }
    }
  }

  /** Every boundary prefix of the URL is an ancestor. */
  lemma {:induction false} BoundaryPrefixesAreAncestors(url: string, p: string)
    requires IsBoundaryPrefix(p, url)
    ensures p in Ancestors(url)
    decreases |url|
  {
    var k := LastIndexOf(url, '/');
    if p != url {
      var m := |p|;
      assert url[m] == '/';
      assert m <= k;
      if m < k {
        assert url[..k][..m] == p;
        BoundaryPrefixesAreAncestors(url[..k], p);
      }
    }
  }

  /** Along the ancestor list the segment count strictly decreases. */
  lemma {:induction false} AncestorsDecrease(url: string)
    ensures forall i, j :: 0 <= i < j < |Ancestors(url)| ==>
      SegmentCount(Ancestors(url)[j]) < SegmentCount(Ancestors(url)[i])
    decreases |url|
  {
    var k := LastIndexOf(url, '/');
    if 0 < k {
      var a := Ancestors(url);
      var b := Ancestors(url[..k]);
      AncestorsDecrease(url[..k]);
      SegmentCountDrops(url, k);
      assert a == [url] + b;
      forall i, j | 0 <= i < j < |a| ensures SegmentCount(a[j]) < SegmentCount(a[i]) {
        if i == 0 {
          assert a[j] == b[j - 1];
          if j > 1 {
            assert SegmentCount(b[j - 1]) < SegmentCount(b[0]);
          }
        } else {
          assert a[i] == b[i - 1] && a[j] == b[j - 1];
        }
      }
    }
  }

  /**
   * `partialUrls` (index.js:52-57): non-empty, the clean URL first, exactly the
   * boundary prefixes of the clean URL, in strictly decreasing segment count.
   */
  lemma PartialUrlsSpec(cleanUrl: string)
    ensures |PartialUrls(cleanUrl)| >= 1 && PartialUrls(cleanUrl)[0] == cleanUrl
    ensures forall p :: p in PartialUrls(cleanUrl) <==> IsBoundaryPrefix(p, cleanUrl)
    ensures forall i, j :: 0 <= i < j < |PartialUrls(cleanUrl)| ==>
      SegmentCount(PartialUrls(cleanUrl)[j]) < SegmentCount(PartialUrls(cleanUrl)[i])
  {
    PartialUrlsAreAncestors(cleanUrl);
    AncestorsAreBoundaryPrefixes(cleanUrl);
    AncestorsDecrease(cleanUrl);
    forall p | IsBoundaryPrefix(p, cleanUrl) ensures p in PartialUrls(cleanUrl) {
      BoundaryPrefixesAreAncestors(cleanUrl, p);
    }
  }
}
