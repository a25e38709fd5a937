/**
 * The decision `ElementTester.test_link` makes about a clicked link: whether the
 * page it started from is usable, and whether anything observable happened. What
 * the browser reports (the URL and title before and after, the API calls captured
 * in between) is passed in.
 */
module LinkTest {
  import opened Wrappers
  import opened Models

  /** `url.split('#')[0]`: the URL up to its first '#'. */
  function BaseUrl(url: string): (b: string)
    ensures |b| <= |url| && b == url[..|b|]
    ensures '#' !in b
    ensures |b| < |url| ==> url[|b|] == '#'
  {
    if url == [] then []
    else if url[0] == '#' then []
    else
      var rest := BaseUrl(url[1..]);
      assert url[1..][..|rest|] == url[1..|rest| + 1];
      [url[0]] + rest
  }

  /** `url.split('#')[1] if '#' in url else None`: the text between the first and the second '#'. */
  function Fragment(url: string): (f: Option<string>)
    ensures f.None? <==> '#' !in url
    ensures f.Some? ==> '#' !in f.value
    ensures f.Some? ==> |BaseUrl(url)| + 1 + |f.value| <= |url|
                        && url[..|BaseUrl(url)| + 1 + |f.value|] == BaseUrl(url) + "#" + f.value
  {
    if '#' !in url then None
    else
      var b := BaseUrl(url);
      if |b| == |url| then assert false; None
      else
        var tail := url[|b| + 1..];
        var f := BaseUrl(tail);
        assert url[..|b| + 1 + |f|] == url[..|b|] + [url[|b|]] + tail[..|f|];
        Some(f)
  }

  /** A starting base URL the test cannot return to. */
  predicate Blank(base: string) {
    base == "about:blank" || base == ""
  }

  const InvalidStart: string := "初始页面 URL 无效，无法执行测试"
  const NoAction: string := "No detectable action (no URL change, API call, hash change, or title change)"

  /** `url_changed`: the part before '#' moved to a page that is not blank. */
  predicate UrlChanged(before: string, after: string) {
    BaseUrl(after) != BaseUrl(before) && !Blank(BaseUrl(after))
  }

  /** Some observable effect of the click: a navigation, an API call, a new fragment or a new title. */
  predicate ActionOccurred(beforeUrl: string, beforeTitle: string, afterUrl: string, afterTitle: string, apis: seq<ApiCall>) {
    || UrlChanged(beforeUrl, afterUrl)
    || |apis| > 0
    || Fragment(beforeUrl) != Fragment(afterUrl)
    || beforeTitle != afterTitle
  }

  /**
   * `test_link` as written: an unusable starting URL fails before the click; after
   * the click, success is `ActionOccurred`. The failure message computed for the
   * no-action case is never put into the result, which leaves `error` empty.
   */
  function LinkResult(element: InteractiveElement, beforeUrl: string, beforeTitle: string,
                      afterUrl: string, afterTitle: string, apis: seq<ApiCall>): (r: TestResult)
    ensures r.element == element
    ensures Blank(BaseUrl(beforeUrl)) ==>
      !r.success && r.apisCalled == [] && r.error == Some(InvalidStart) && !r.navigatedAway
    ensures !Blank(BaseUrl(beforeUrl)) ==>
      && (r.success <==> ActionOccurred(beforeUrl, beforeTitle, afterUrl, afterTitle, apis))
      && r.apisCalled == apis && r.error == None && r.navigatedAway
    ensures r.screenshot == None
  {
    if beforeUrl == "" || Blank(BaseUrl(beforeUrl)) then
      TestResult(element, false, [], Some(InvalidStart), None, false)
    else
      var urlChanged := UrlChanged(beforeUrl, afterUrl);
      var hashChanged := Fragment(beforeUrl) != Fragment(afterUrl);
      var titleChanged := beforeTitle != afterTitle;
      var success := urlChanged || |apis| > 0 || hashChanged || titleChanged;
      TestResult(element, success, apis, None, None, true)
  }

  /** A link that changes only what follows the '#' counts as working. */
  lemma AnchorLinkSucceeds(element: InteractiveElement, url: string, title: string, frag: string)
    requires '#' !in frag && !Blank(BaseUrl(url)) && '#' !in url
    ensures LinkResult(element, url, title, url + "#" + frag, title, []).success
  {
    var after := url + "#" + frag;
    BaseOfAppended(url, frag);
    assert Fragment(url).None?;
    assert '#' in after by { assert after[|url|] == '#'; }
    assert Fragment(after).Some?;
  }

  /** The base of `url#frag` is `url` when `url` has no '#'. */
  lemma {:induction false} BaseOfAppended(url: string, frag: string)
    requires '#' !in url
    ensures BaseUrl(url + "#" + frag) == url
  {
    if url != [] {
      assert (url + "#" + frag)[1..] == url[1..] + "#" + frag;
      BaseOfAppended(url[1..], frag);
    }
  }

  /** Reloading the same page with no API call and the same title fails, yet carries no message. */
  lemma SilentFailure(element: InteractiveElement, url: string, title: string)
    requires !Blank(BaseUrl(url))
    ensures !LinkResult(element, url, title, url, title, []).success
    ensures LinkResult(element, url, title, url, title, []).error == None
  {
  }

  /**
   * The result the surrounding code evidently means to build: the same decision,
   * with the no-action message kept as the error of a failed result.
   */
  function LinkResultIntended(element: InteractiveElement, beforeUrl: string, beforeTitle: string,
                              afterUrl: string, afterTitle: string, apis: seq<ApiCall>): (r: TestResult)
    ensures r.success == LinkResult(element, beforeUrl, beforeTitle, afterUrl, afterTitle, apis).success
    ensures r.success <==> r.error == None
    ensures !r.success && !Blank(BaseUrl(beforeUrl)) ==> r.error == Some(NoAction)
    ensures r.success ==> r == LinkResult(element, beforeUrl, beforeTitle, afterUrl, afterTitle, apis)
  {
    var r := LinkResult(element, beforeUrl, beforeTitle, afterUrl, afterTitle, apis);
    if r.success || r.error.Some? then r else r.(error := Some(NoAction))
  }
}
