/**
 * The not-found hook `pageNotFound`: look the request URL up among the
 * documents' historic URLs and redirect to the best match's current URL.
 */
module Resolver {
  import opened Wrappers
  import opened JsBuiltins
  import opened Urls
  import opened Documents

  /** A dispatch rule's `regexp.test`, left opaque: any predicate on the child route URL. */
  type Rule = string -> bool

  /** `getManager(type).rules` per document type; a type missing here has no manager or no rules. */
  type Registry = map<string, seq<Rule>>

  /** What the historic-URL query hands back: the candidates, most recently updated first, or an error. */
  datatype Fetched = Found(candidates: seq<Doc>) | FetchError(error: string)

  /** How the hook ends: `req.res.redirect(status, location)`, `callback(null)` or `callback(err)`. */
  datatype Outcome = Redirect(status: int, location: string) | PassThrough | Failed(error: string)

  predicate HasMatch(historicUrls: seq<string>, partialUrls: seq<string>) {
    exists u :: u in historicUrls && u in partialUrls
  }

  /**
   * `longestHistoricUrl`: the historic URLs sorted (stably) by decreasing
   * segment count, then the first that is one of `partialUrls`; that is the
   * earliest entry of greatest segment count among those in `partialUrls`.
   */
  function LongestHistoricUrl(historicUrls: seq<string>, partialUrls: seq<string>): (r: Option<string>)
    ensures r.None? <==> !HasMatch(historicUrls, partialUrls)
    ensures r.Some? ==> r.value in historicUrls && r.value in partialUrls
    ensures r.Some? ==> forall u :: u in historicUrls && u in partialUrls ==> SegmentCount(u) <= SegmentCount(r.value)
  {
    if historicUrls == [] then None
    else
      var rest := LongestHistoricUrl(historicUrls[1..], partialUrls);
      var u := historicUrls[0];
      assert forall v :: v in historicUrls ==> v == u || v in historicUrls[1..];
      if u in partialUrls && (rest.None? || SegmentCount(u) >= SegmentCount(rest.value)) then Some(u) else rest
  }

  lemma OneSlash(name: string)
    requires |name| > 0 && '/' !in name
    ensures Count("/" + name, '/') == 1
  {
    assert ("/" + name)[1..] == name;
  }

  /** `/a` has two segments and `/a/b` three, for names `a` and `b` without `/`. */
  lemma NameSegments(a: string, b: string)
    requires |a| > 0 && '/' !in a && |b| > 0 && '/' !in b
    ensures SegmentCount("/" + a) == 2 && SegmentCount("/" + a + "/" + b) == 3
  {
    OneSlash(a);
    OneSlash(b);
    CountAppend("/" + a, "/" + b, '/');
    assert "/" + a + "/" + b == ("/" + a) + ("/" + b);
    SegmentCountIsSlashes("/" + a);
    SegmentCountIsSlashes("/" + a + "/" + b);
  }

  lemma ChildSegments()
    ensures SegmentCount("/child") == 2 && SegmentCount("/child/moved") == 3
  {
    assert '/' !in "child" && '/' !in "moved";
    NameSegments("child", "moved");
    assert "/" + "child" == "/child";
    assert "/" + "child" + "/" + "moved" == "/child/moved";
  }

  /** Of two historic URLs that are both prefixes of the request, the one with more segments is chosen, in either order. */
  lemma DeeperOfTwoChosen(x: string, y: string, partialUrls: seq<string>)
    requires x in partialUrls && y in partialUrls && SegmentCount(x) < SegmentCount(y)
    ensures LongestHistoricUrl([x, y], partialUrls) == Some(y)
    ensures LongestHistoricUrl([y, x], partialUrls) == Some(y)
  {
    var m := LongestHistoricUrl([x, y], partialUrls);
    assert y in [x, y];
    assert m.value == x || m.value == y;
    var n := LongestHistoricUrl([y, x], partialUrls);
    assert y in [y, x];
    assert n.value == x || n.value == y;
  }

  /** A document once at `/child` and later at `/child/moved` is matched by its deeper URL, whatever the order. */
  lemma DeeperHistoricUrlChosen(partialUrls: seq<string>)
    requires "/child" in partialUrls && "/child/moved" in partialUrls
    ensures LongestHistoricUrl(["/child", "/child/moved"], partialUrls) == Some("/child/moved")
    ensures LongestHistoricUrl(["/child/moved", "/child"], partialUrls) == Some("/child/moved")
  {
    ChildSegments();
    DeeperOfTwoChosen("/child", "/child/moved", partialUrls);
  }

  /** The historic URL of `doc` that the request URL is matched against. */
  function MatchOf(doc: Doc, cleanUrl: string): (m: Option<string>)
    ensures m.None? <==> !HasMatch(doc.historicUrls, PartialUrls(cleanUrl))
    ensures m.Some? ==> m.value in doc.historicUrls && m.value in PartialUrls(cleanUrl)
  {
    LongestHistoricUrl(doc.historicUrls, PartialUrls(cleanUrl))
  }

  function RulesOf(registry: Registry, docType: string): seq<Rule> {
    if docType in registry then registry[docType] else []
  }

  /** `_.some(rules, rule => rule.regexp.test(childRouteUrl))`. */
  function SomeRule(rules: seq<Rule>, childRouteUrl: string): (b: bool)
    ensures b <==> exists i :: 0 <= i < |rules| && rules[i](childRouteUrl)
  {
    if |rules| == 0 then false
    else rules[0](childRouteUrl) || SomeRule(rules[1..], childRouteUrl)
  }

  /** `hasMatchingRoute`: no rules at all, or one of them recognises the child route. */
  predicate HasMatchingRoute(rules: seq<Rule>, childRouteUrl: string) {
    |rules| == 0 || SomeRule(rules, childRouteUrl)
  }

  /** What the selection loop learns about one candidate. */
  datatype Assessment = Assessment(matchLength: nat, accepted: bool, target: string)

  /**
   * One candidate's `matchLength`, whether its type's routes accept what is
   * left of the request after its matched historic URL (the route gate), and
   * `candidateUrl`, the request with that historic URL replaced by the current
   * `_url`. A candidate without a match (which the query never returns) is
   * assessed as rejected.
   */
  function Assess(doc: Doc, cleanUrl: string, registry: Registry): (a: Assessment)
    ensures MatchOf(doc, cleanUrl).None? ==> !a.accepted && a.target == cleanUrl
    ensures MatchOf(doc, cleanUrl).Some? ==> a.matchLength == SegmentCount(MatchOf(doc, cleanUrl).value) && a.matchLength >= 1
  {
    var m := MatchOf(doc, cleanUrl);
    if m.None? then Assessment(0, false, cleanUrl)
    else
      Assessment(
        SegmentCount(m.value),
        HasMatchingRoute(RulesOf(registry, doc.docType), ReplaceFirst(cleanUrl, m.value, "")),
        ReplaceFirst(cleanUrl, m.value, doc.url))
  }

  /** The assessments of all candidates, in order. */
  function AssessAll(candidates: seq<Doc>, cleanUrl: string, registry: Registry): (r: seq<Assessment>)
    ensures |r| == |candidates|
  {
    if candidates == [] then []
    else [Assess(candidates[0], cleanUrl, registry)] + AssessAll(candidates[1..], cleanUrl, registry)
  }

  lemma {:induction false} AssessAllAt(candidates: seq<Doc>, cleanUrl: string, registry: Registry, i: nat)
    requires i < |candidates|
    ensures AssessAll(candidates, cleanUrl, registry)[i] == Assess(candidates[i], cleanUrl, registry)
  {
    if i > 0 {
      AssessAllAt(candidates[1..], cleanUrl, registry, i - 1);
    }
  }

  /**
   * Candidate `w` wins among the first `n`: it passes the route gate, every
   * earlier candidate that passes has a strictly shorter match, and every later
   * one that passes has a match no longer.
   */
  ghost predicate IsWinnerUpTo(a: seq<Assessment>, n: nat, w: nat) {
    w < n <= |a|
    && a[w].accepted
    && (forall j :: 0 <= j < w && a[j].accepted ==> a[j].matchLength < a[w].matchLength)
    && (forall j :: w < j < n && a[j].accepted ==> a[j].matchLength <= a[w].matchLength)
  }

  ghost predicate IsWinner(a: seq<Assessment>, w: nat) {
    IsWinnerUpTo(a, |a|, w)
  }

  /** None of the first `n` candidates passes the route gate. */
  ghost predicate NoneAcceptedBefore(a: seq<Assessment>, n: nat)
    requires n <= |a|
  {
    forall j :: 0 <= j < n ==> !a[j].accepted
  }

  ghost predicate NoneAccepted(a: seq<Assessment>) {
    NoneAcceptedBefore(a, |a|)
  }

  /** The scan rejects candidate `i` while nothing has been taken yet. */
  lemma NoneAcceptedStep(a: seq<Assessment>, i: nat)
    requires i < |a| && NoneAcceptedBefore(a, i) && !a[i].accepted
    ensures NoneAcceptedBefore(a, i + 1)
  {
  }

  /** At most one candidate wins. */
  lemma WinnerUnique(a: seq<Assessment>, v: nat, w: nat)
    requires IsWinner(a, v) && IsWinner(a, w)
    ensures v == w
  {
  }

  /** Among the first `n` candidates, either none passes the route gate or one wins. */
  lemma {:induction false} WinnerAmongFirst(a: seq<Assessment>, n: nat) returns (w: int)
    requires n <= |a|
    ensures w < 0 ==> NoneAcceptedBefore(a, n)
    ensures 0 <= w ==> IsWinnerUpTo(a, n, w)
  {
    if n == 0 {
      return -1;
    }
    w := WinnerAmongFirst(a, n - 1);
    if a[n - 1].accepted && (w < 0 || a[w].matchLength < a[n - 1].matchLength) {
      w := n - 1;
    }
  }

  /** The scan takes candidate `i`: it passes the gate with a match longer than the current winner's. */
  lemma WinnerTake(a: seq<Assessment>, i: nat, best: int)
    requires i < |a| && best < i && a[i].accepted
    requires best < 0 ==> NoneAcceptedBefore(a, i)
    requires 0 <= best ==> IsWinnerUpTo(a, i, best) && a[best].matchLength < a[i].matchLength
    ensures IsWinnerUpTo(a, i + 1, i)
  {
  }

  /** The scan passes over candidate `i`: it fails the gate or its match is no longer. */
  lemma WinnerKeep(a: seq<Assessment>, i: nat, best: nat)
    requires IsWinnerUpTo(a, i, best) && i < |a|
    requires a[i].accepted ==> a[i].matchLength <= a[best].matchLength
    ensures IsWinnerUpTo(a, i + 1, best)
  {
  }

  /** If some candidate passes the route gate, there is a winner. */
  lemma WinnerExists(a: seq<Assessment>, j: nat) returns (w: nat)
    requires j < |a| && a[j].accepted
    ensures IsWinner(a, w)
  {
    var v := WinnerAmongFirst(a, |a|);
    w := v;
  }

  /** Unless every candidate is rejected, there is a winner. */
  lemma SomeWinner(a: seq<Assessment>)
    requires !NoneAccepted(a)
    ensures exists w: nat :: IsWinner(a, w)
  {
    var j :| 0 <= j < |a| && a[j].accepted;
    var w := WinnerExists(a, j);
  }

  /**
   * A rejected candidate does not count, however long its match: the accepted
   * candidate with the strictly longest match among the accepted ones wins.
   */
  lemma LongestAcceptedWins(a: seq<Assessment>, w: nat)
    requires w < |a| && a[w].accepted
    requires forall j :: 0 <= j < |a| && j != w && a[j].accepted ==> a[j].matchLength < a[w].matchLength
    ensures IsWinner(a, w)
  {
  }

  /** Longest match wins whatever the recency: a shorter accepted match never wins over a longer accepted one. */
  lemma LongerMatchWins(a: seq<Assessment>, i: nat, j: nat)
    requires i < |a| && j < |a| && a[i].accepted && a[j].accepted
    requires a[j].matchLength < a[i].matchLength
    ensures !IsWinner(a, j)
  {
  }

  /** On equal match length the earlier, more recently updated candidate is kept. */
  lemma TieKeepsEarlier(a: seq<Assessment>, i: nat, j: nat)
    requires i < j < |a| && a[i].accepted && a[j].accepted
    requires a[i].matchLength == a[j].matchLength
    ensures !IsWinner(a, j)
  {
  }

  /** In a list of strictly decreasing segment counts, no two positions share a count. */
  lemma SameSegmentCountSameIndex(urls: seq<string>, x: nat, y: nat)
    requires forall i, j :: 0 <= i < j < |urls| ==> SegmentCount(urls[j]) < SegmentCount(urls[i])
    requires x < |urls| && y < |urls| && SegmentCount(urls[x]) == SegmentCount(urls[y])
    ensures x == y
  {
  }

  /**
   * The matched historic URL is a `/`-boundary prefix of the request URL, and
   * the only historic URL of the document at that depth among the prefixes.
   */
  lemma MatchIsBoundaryPrefix(doc: Doc, cleanUrl: string)
    requires MatchOf(doc, cleanUrl).Some?
    ensures IsBoundaryPrefix(MatchOf(doc, cleanUrl).value, cleanUrl)
    ensures forall u :: (u in doc.historicUrls && u in PartialUrls(cleanUrl)
      && SegmentCount(u) == SegmentCount(MatchOf(doc, cleanUrl).value)) ==> u == MatchOf(doc, cleanUrl).value
  {
    var h := MatchOf(doc, cleanUrl).value;
    var partials := PartialUrls(cleanUrl);
    PartialUrlsSpec(cleanUrl);
    forall u | u in doc.historicUrls && u in partials && SegmentCount(u) == SegmentCount(h) ensures u == h {
      var x :| 0 <= x < |partials| && partials[x] == u;
      var y :| 0 <= y < |partials| && partials[y] == h;
      SameSegmentCountSameIndex(partials, x, y);
    }
  }

  /** One candidate's assessment, spelled out for its matched historic URL `h`. */
  lemma AssessWith(doc: Doc, cleanUrl: string, registry: Registry, h: string)
    requires MatchOf(doc, cleanUrl) == Some(h)
    ensures Assess(doc, cleanUrl, registry).matchLength == SegmentCount(h)
    ensures Assess(doc, cleanUrl, registry).target == ReplaceFirst(cleanUrl, h, doc.url)
    ensures Assess(doc, cleanUrl, registry).accepted
      == HasMatchingRoute(RulesOf(registry, doc.docType), ReplaceFirst(cleanUrl, h, ""))
  {
  }

  /**
   * What an assessment means: the match length is the segment count of the
   * matched historic URL `h`; the route gate looks at what follows `h` in the
   * request (empty or starting with `/`), no rules meaning accepted; and the
   * target is the current URL followed by that same remainder.
   */
  lemma AssessmentMeaning(doc: Doc, cleanUrl: string, registry: Registry, h: string)
    requires MatchOf(doc, cleanUrl) == Some(h)
    ensures IsPrefix(h, cleanUrl)
    ensures cleanUrl[|h|..] == [] || cleanUrl[|h|..][0] == '/'
    ensures Assess(doc, cleanUrl, registry).matchLength == SegmentCount(h)
    ensures Assess(doc, cleanUrl, registry).accepted <==>
      var rules := RulesOf(registry, doc.docType);
      |rules| == 0 || exists i :: 0 <= i < |rules| && rules[i](cleanUrl[|h|..])
    ensures Assess(doc, cleanUrl, registry).target == doc.url + cleanUrl[|h|..]
  {
    MatchIsBoundaryPrefix(doc, cleanUrl);
    ReplacePrefix(cleanUrl, h, "");
    ReplacePrefix(cleanUrl, h, doc.url);
    assert "" + cleanUrl[|h|..] == cleanUrl[|h|..];
    AssessWith(doc, cleanUrl, registry, h);
  }

  /**
   * The route gate of one candidate whose deepest matching historic URL is
   * `longestHistoricUrl`: whether its type's routes accept what follows that
   * URL in the request, and the request with that URL replaced by `_url`.
   */
  method RouteGate(candidate: Doc, cleanUrl: string, longestHistoricUrl: string, registry: Registry)
    returns (hasMatchingRoute: bool, candidateUrl: string)
    requires MatchOf(candidate, cleanUrl) == Some(longestHistoricUrl)
    ensures hasMatchingRoute == Assess(candidate, cleanUrl, registry).accepted
    ensures candidateUrl == Assess(candidate, cleanUrl, registry).target
  {
    var rules := RulesOf(registry, candidate.docType);
    hasMatchingRoute := true;
    candidateUrl := ReplaceFirst(cleanUrl, longestHistoricUrl, candidate.url);
    if |rules| != 0 {
      var childRouteUrl := ReplaceFirst(cleanUrl, longestHistoricUrl, "");
      hasMatchingRoute := SomeRule(rules, childRouteUrl);
    }
    AssessWith(candidate, cleanUrl, registry, longestHistoricUrl);
  }

  /**
   * What the loop of `pageNotFound` knows after scanning the first `i`
   * candidates: either nothing was taken and none of them passes the gate, or
   * candidate `best` is the winner so far and its length and target are kept.
   */
  ghost predicate Scanned(a: seq<Assessment>, i: nat, best: int, longestMatch: nat, redirectUrl: Option<string>) {
    i <= |a| && best < i
    && (best < 0 ==> longestMatch == 0 && redirectUrl == None && NoneAcceptedBefore(a, i))
    && (0 <= best ==> IsWinnerUpTo(a, i, best) && longestMatch == a[best].matchLength
                      && redirectUrl == Some(a[best].target))
  }

  /** One pass of the loop body: take candidate `i` when it passes the gate with a longer match, else keep what was kept. */
  lemma ScanStep(a: seq<Assessment>, i: nat, best: int, longestMatch: nat, redirectUrl: Option<string>)
    requires i < |a| && 1 <= a[i].matchLength && Scanned(a, i, best, longestMatch, redirectUrl)
    ensures a[i].accepted && a[i].matchLength > longestMatch ==>
      Scanned(a, i + 1, i, a[i].matchLength, Some(a[i].target))
    ensures !(a[i].accepted && a[i].matchLength > longestMatch) ==>
      Scanned(a, i + 1, best, longestMatch, redirectUrl)
  {
    if a[i].accepted && a[i].matchLength > longestMatch {
      WinnerTake(a, i, best);
    } else if 0 <= best {
      WinnerKeep(a, i, best);
    } else {
      NoneAcceptedStep(a, i);
    }
  }

  /**
   * The loop of `pageNotFound`: candidates are scanned in order, keeping the
   * target of the one with the strictly longest match that passes the route
   * gate. Nothing is kept when no candidate passes; otherwise the winner's
   * target is.
   */
  method SelectRedirect(candidates: seq<Doc>, cleanUrl: string, partialUrls: seq<string>, registry: Registry)
    returns (redirectUrl: Option<string>)
    requires partialUrls == PartialUrls(cleanUrl)
    requires forall c :: c in candidates ==> HasMatch(c.historicUrls, partialUrls)
    ensures NoneAccepted(AssessAll(candidates, cleanUrl, registry)) ==> redirectUrl == None
    ensures forall w: nat :: IsWinner(AssessAll(candidates, cleanUrl, registry), w) ==>
      redirectUrl == Some(AssessAll(candidates, cleanUrl, registry)[w].target)
  {
    ghost var assessed := AssessAll(candidates, cleanUrl, registry);
    var longestMatch := 0;
    redirectUrl := None;
    ghost var best := -1;
    var i := 0;
    while i < |candidates|
      invariant Scanned(assessed, i, best, longestMatch, redirectUrl)
    {
      var candidate := candidates[i];
      assert candidate in candidates;
      AssessAllAt(candidates, cleanUrl, registry, i);
      var longestHistoricUrl := LongestHistoricUrl(candidate.historicUrls, partialUrls).value;
      AssessWith(candidate, cleanUrl, registry, longestHistoricUrl);
      var matchLength := SegmentCount(longestHistoricUrl);
      ScanStep(assessed, i, best, longestMatch, redirectUrl);
      if matchLength > longestMatch {
        var hasMatchingRoute, candidateUrl := RouteGate(candidate, cleanUrl, longestHistoricUrl, registry);
        if hasMatchingRoute {
          redirectUrl := Some(candidateUrl);
          longestMatch := matchLength;
          best := i;
        }
      }
      i := i + 1;
    }
    if 0 <= best {
      forall w: nat | IsWinner(assessed, w) ensures w == best {
        WinnerUnique(assessed, w, best);
      }
    }
  }

  /**
   * `pageNotFound`: the winning candidate's target is issued as a redirect
   * unless there is none, it is empty, or it leads back to the requested URL.
   */
  method PageNotFound(config: Config, url: string, fetched: Fetched, registry: Registry) returns (out: Outcome)
    requires config.enable && fetched.Found? ==>
      forall c :: c in fetched.candidates ==> HasMatch(c.historicUrls, PartialUrls(CleanUrl(url)))
    ensures !config.enable ==> out == PassThrough
    ensures config.enable && fetched.FetchError? ==> out == Failed(fetched.error)
    ensures config.enable && fetched.Found? && NoneAccepted(AssessAll(fetched.candidates, CleanUrl(url), registry)) ==>
      out == PassThrough
    ensures config.enable && fetched.Found? && !NoneAccepted(AssessAll(fetched.candidates, CleanUrl(url), registry)) ==>
      exists w: nat :: IsWinner(AssessAll(fetched.candidates, CleanUrl(url), registry), w)
    ensures config.enable && fetched.Found? ==>
      forall w: nat :: IsWinner(AssessAll(fetched.candidates, CleanUrl(url), registry), w) ==>
        var target := AssessAll(fetched.candidates, CleanUrl(url), registry)[w].target;
        (out.Redirect? <==> target != "" && Local(target) != CleanUrl(url))
        && (out.Redirect? ==> out == Redirect(RedirectStatus(config), target))
        && (!out.Redirect? ==> out == PassThrough)
  {
    var statusCode := RedirectStatus(config);
    if !config.enable {
      return PassThrough;
    }
    var cleanUrl := CleanUrl(url);
    var partialUrls := PartialUrls(cleanUrl);
    if fetched.FetchError? {
      return Failed(fetched.error);
    }
    var redirectUrl := SelectRedirect(fetched.candidates, cleanUrl, partialUrls, registry);
    if !NoneAccepted(AssessAll(fetched.candidates, cleanUrl, registry)) {
      SomeWinner(AssessAll(fetched.candidates, cleanUrl, registry));
    }
    if redirectUrl.Some? && redirectUrl.value != "" && Local(redirectUrl.value) != cleanUrl {
      return Redirect(statusCode, redirectUrl.value);
    }
    return PassThrough;
  }
}
