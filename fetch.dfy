/**
 * Link extraction for one page (fetch/fetch.go): the search for an anchor's
 * href and the token-scanning loop that builds a JobResult. The HTTP
 * response and the HTML tokenizer are abstracted: a GET either fails or
 * yields a finite token stream.
 */
module Fetch {
  import opened Urls
  import opened Seqs

  /** An attribute of a start tag (html.Attribute without its namespace). */
  datatype Attribute = Attribute(key: string, val: string)

  /**
   * What the tokenizer's Next reports. A self-closing tag is not a start tag
   * for the tokenizer, so it is one of the other tokens. The tokenizer's
   * error token is split in two by what Err() says: the end of the stream
   * (io.EOF) or a genuine parse error. A stream that runs out of tokens is
   * read as ending in EndOfStream.
   */
  datatype Token =
    | StartTag(data: string, attrs: seq<Attribute>)
    | OtherToken
    | EndOfStream
    | ParseError

  /** The outcome of the HTTP GET: an error, or a body the tokenizer reads. */
  datatype Response = GetFailed | Body(tokens: seq<Token>)

  /** JobResult: the page that was fetched and the links found on it. */
  datatype JobResult = JobResult(fromURL: Url, linksTo: seq<Url>)

  /**
   * The href of a tag: the value of the first attribute whose key is
   * "href", or the empty string when there is none.
   */
  function Href(attrs: seq<Attribute>): string
  {
    if attrs == [] then ""
    else if attrs[0].key == "href" then attrs[0].val
    else Href(attrs[1..])
  }

  /** Href is the value of the first "href" attribute, and "" when no attribute is an href. */
  lemma {:induction false} HrefIsFirst(attrs: seq<Attribute>)
    ensures (forall k :: 0 <= k < |attrs| ==> attrs[k].key != "href") ==> Href(attrs) == ""
    ensures forall k :: 0 <= k < |attrs| && attrs[k].key == "href" && (forall j :: 0 <= j < k ==> attrs[j].key != "href")
                        ==> Href(attrs) == attrs[k].val
  {
    if attrs != [] {
      HrefIsFirst(attrs[1..]);
      assert forall k :: 1 <= k < |attrs| ==> attrs[1..][k - 1] == attrs[k];
    }
  }

  /** getHref: the range loop over the attributes, returning at the first "href". */
  method GetHref(attrs: seq<Attribute>) returns (r: string)
    ensures r == Href(attrs)
  {
    HrefIsFirst(attrs);
    for i := 0 to |attrs|
      invariant forall k :: 0 <= k < i ==> attrs[k].key != "href"
    {
      if attrs[i].key == "href" {
        return attrs[i].val;
      }
    }
    return "";
  }

  /** The two tokens that end the scan. */
  predicate Stops(t: Token)
  {
    t.EndOfStream? || t.ParseError?
  }

  predicate NoStop(tokens: seq<Token>)
  {
    forall k :: 0 <= k < |tokens| ==> !Stops(tokens[k])
  }

  /**
   * The link one token contributes: an "a" start tag whose href is not
   * empty and parses contributes that href resolved against the page's URL
   * `base`; any other token, or an href that fails to parse, contributes
   * nothing.
   */
  function Contribution(env: Env, base: Url, t: Token): seq<Url>
  {
    if t.StartTag? && t.data == "a" && Href(t.attrs) != "" && ParseRef(env, base, Href(t.attrs)).Some?
    then [ParseRef(env, base, Href(t.attrs)).value]
    else []
  }

  /**
   * The links gathered from position i of a token stream on: the
   * contributions of the tokens in stream order, up to the first
   * end-of-stream or parse error.
   */
  function AnchorLinksFrom(env: Env, base: Url, tokens: seq<Token>, i: nat): (r: seq<Url>)
    requires i <= |tokens|
    ensures |r| <= |tokens| - i
    decreases |tokens| - i
  {
    if i == |tokens| || Stops(tokens[i]) then []
    else Contribution(env, base, tokens[i]) + AnchorLinksFrom(env, base, tokens, i + 1)
  }

  /** The links gathered from a whole token stream: at most one per token. */
  function AnchorLinks(env: Env, base: Url, tokens: seq<Token>): (r: seq<Url>)
    ensures |r| <= |tokens|
  {
    AnchorLinksFrom(env, base, tokens, 0)
  }

  lemma {:induction false} AnchorLinksShift(env: Env, base: Url, a: seq<Token>, b: seq<Token>, j: nat)
    requires j <= |b|
    ensures AnchorLinksFrom(env, base, a + b, |a| + j) == AnchorLinksFrom(env, base, b, j)
    decreases |b| - j
  {
    if j < |b| {
      assert (a + b)[|a| + j] == b[j];
      AnchorLinksShift(env, base, a, b, j + 1);
    }
  }

  lemma {:induction false} AnchorLinksAppendFrom(env: Env, base: Url, a: seq<Token>, b: seq<Token>, i: nat)
    requires NoStop(a) && i <= |a|
    ensures AnchorLinksFrom(env, base, a + b, i) == AnchorLinksFrom(env, base, a, i) + AnchorLinks(env, base, b)
    decreases |a| - i
  {
    if i == |a| {
      AnchorLinksShift(env, base, a, b, 0);
    } else {
      assert (a + b)[i] == a[i];
      AnchorLinksAppendFrom(env, base, a, b, i + 1);
      AppendAssoc(Contribution(env, base, a[i]), AnchorLinksFrom(env, base, a, i + 1), AnchorLinks(env, base, b));
    }
  }

  /** Scanning a stop-free prefix and then the rest appends their links in order. */
  lemma AnchorLinksAppend(env: Env, base: Url, a: seq<Token>, b: seq<Token>)
    requires NoStop(a)
    ensures AnchorLinks(env, base, a + b) == AnchorLinks(env, base, a) + AnchorLinks(env, base, b)
  {
    AnchorLinksAppendFrom(env, base, a, b, 0);
  }

  lemma {:induction false} AnchorLinksAtStopFrom(env: Env, base: Url, a: seq<Token>, t: Token, rest: seq<Token>, i: nat)
    requires NoStop(a) && Stops(t) && i <= |a|
    ensures AnchorLinksFrom(env, base, a + [t] + rest, i) == AnchorLinksFrom(env, base, a, i)
    decreases |a| - i
  {
    if i == |a| {
      assert (a + [t] + rest)[i] == t;
    } else {
      assert (a + [t] + rest)[i] == a[i];
      AnchorLinksAtStopFrom(env, base, a, t, rest, i + 1);
    }
  }

  /**
   * At the first end-of-stream or parse error the result is the links
   * gathered so far, whatever follows in the stream.
   */
  lemma AnchorLinksAtStop(env: Env, base: Url, a: seq<Token>, t: Token, rest: seq<Token>)
    requires NoStop(a) && Stops(t)
    ensures AnchorLinks(env, base, a + [t] + rest) == AnchorLinks(env, base, a)
  {
    AnchorLinksAtStopFrom(env, base, a, t, rest, 0);
  }

  /** The token is an "a" start tag whose non-empty href url.Parse accepts as v. */
  predicate HrefParsesAs(env: Env, t: Token, v: Url)
  {
    t.StartTag? && t.data == "a" && Href(t.attrs) != "" && env.parse(Href(t.attrs)) == Some(v)
  }

  /** The token is an "a" start tag whose non-empty href parses, against the page's URL, as u. */
  predicate AnchorTo(env: Env, base: Url, t: Token, u: Url)
  {
    t.StartTag? && t.data == "a" && Href(t.attrs) != "" && ParseRef(env, base, Href(t.attrs)) == Some(u)
  }

  /**
   * Every link gathered from position i on is the non-empty href of an "a"
   * start tag at or after i, before any end-of-stream or parse error,
   * parsed and resolved against the page's URL.
   */
  lemma {:induction false} AnchorLinksSound(env: Env, base: Url, tokens: seq<Token>, i: nat, u: Url)
    requires i <= |tokens| && u in AnchorLinksFrom(env, base, tokens, i)
    ensures exists k :: i <= k < |tokens| && (forall m :: i <= m < k ==> !Stops(tokens[m])) && AnchorTo(env, base, tokens[k], u)
    decreases |tokens| - i
  {
    if u !in Contribution(env, base, tokens[i]) {
      AnchorLinksSound(env, base, tokens, i + 1, u);
      var k :| i + 1 <= k < |tokens| && (forall m :: i + 1 <= m < k ==> !Stops(tokens[m])) && AnchorTo(env, base, tokens[k], u);
      assert forall m :: i <= m < k ==> !Stops(tokens[m]);
    }
  }

  /**
   * Conversely, every such anchor at or after i, before any stop, yields
   * its link.
   */
  lemma {:induction false} AnchorLinksComplete(env: Env, base: Url, tokens: seq<Token>, i: nat, k: nat, u: Url)
    requires i <= k < |tokens| && (forall m :: i <= m < k ==> !Stops(tokens[m])) && AnchorTo(env, base, tokens[k], u)
    ensures u in AnchorLinksFrom(env, base, tokens, i)
    decreases k - i
  {
    var rest := AnchorLinksFrom(env, base, tokens, i + 1);
    if i < k {
      assert !Stops(tokens[i]);
      AnchorLinksComplete(env, base, tokens, i + 1, k, u);
      assert u in Contribution(env, base, tokens[i]) + rest;
    } else {
      assert Contribution(env, base, tokens[k]) == [u];
      assert u in [u] + rest;
    }
  }

  /**
   * A link is gathered from a token stream exactly when it is the non-empty
   * href of an "a" start tag before any end-of-stream or parse error,
   * parsed and resolved against the page's URL.
   */
  lemma AnchorLinksFromAnchors(env: Env, base: Url, tokens: seq<Token>, u: Url)
    ensures u in AnchorLinks(env, base, tokens)
            <==> exists k :: 0 <= k < |tokens| && (forall m :: 0 <= m < k ==> !Stops(tokens[m])) && AnchorTo(env, base, tokens[k], u)
  {
    if u in AnchorLinks(env, base, tokens) {
      AnchorLinksSound(env, base, tokens, 0, u);
    }
    if exists k :: 0 <= k < |tokens| && (forall m :: 0 <= m < k ==> !Stops(tokens[m])) && AnchorTo(env, base, tokens[k], u) {
      var k :| 0 <= k < |tokens| && (forall m :: 0 <= m < k ==> !Stops(tokens[m])) && AnchorTo(env, base, tokens[k], u);
      AnchorLinksComplete(env, base, tokens, 0, k, u);
    }
  }

  /**
   * The token loop of getLinksForSingleURL: reads tokens until the end of
   * the stream or a parse error, appending the link of every "a" start tag
   * with a non-empty, parseable href. An href that fails to parse is skipped
   * and the scan goes on.
   */
  method ScanLinks(env: Env, base: Url, tokens: seq<Token>) returns (linksTo: seq<Url>)
    ensures linksTo == AnchorLinks(env, base, tokens)
  {
    linksTo := [];
    var i := 0;
    while i < |tokens|
      invariant 0 <= i <= |tokens|
      invariant linksTo + AnchorLinksFrom(env, base, tokens, i) == AnchorLinks(env, base, tokens)
    {
      var tt := tokens[i];
      if Stops(tt) {
        assert linksTo + [] == linksTo;
        return;
      }
      ghost var before := linksTo;
      assert AnchorLinksFrom(env, base, tokens, i) == Contribution(env, base, tt) + AnchorLinksFrom(env, base, tokens, i + 1);
      if tt.StartTag? && tt.data == "a" {
        var link := GetHref(tt.attrs);
        if link != "" {
          var foundLink := ParseRef(env, base, link);
          if foundLink.Some? {
            linksTo := linksTo + [foundLink.value];
          }
        }
      }
      assert linksTo == before + Contribution(env, base, tt);
      AppendAssoc(before, Contribution(env, base, tt), AnchorLinksFrom(env, base, tokens, i + 1));
      assert linksTo + AnchorLinksFrom(env, base, tokens, i + 1) == before + AnchorLinksFrom(env, base, tokens, i);
      i := i + 1;
    }
    assert linksTo + [] == linksTo;
  }

  /**
   * getLinksForSingleURL without its channel: the JobResult for one URL. Its
   * FromURL is always the requested URL; a failed GET gives no links,
   * otherwise the links are those the token loop gathers.
   */
  method GetLinksForSingleURL(env: Env, url: Url, response: Response) returns (links: JobResult)
    ensures links.fromURL == url
    ensures response.GetFailed? ==> links.linksTo == []
    ensures response.Body? ==> links.linksTo == AnchorLinks(env, url, response.tokens)
    ensures links == PageResult(env, url, response)
  {
    links := JobResult(url, []);
    match response
    case GetFailed =>
      return;
    case Body(tokens) =>
      var found := ScanLinks(env, url, tokens);
      links := links.(linksTo := found);
  }

  /**
   * Every link of a page's JobResult is the parse of an href on that page
   * resolved against the page's own URL, so a relative href is read
   * relative to the page it is on.
   */
  lemma PageLinksResolved(env: Env, url: Url, response: Response, u: Url)
    requires u in PageResult(env, url, response).linksTo
    ensures response.Body?
    ensures exists k, v :: 0 <= k < |response.tokens| && HrefParsesAs(env, response.tokens[k], v) && u == env.resolve(url, v)
  {
    var tokens := response.tokens;
    assert u in AnchorLinksFrom(env, url, tokens, 0);
    AnchorLinksSound(env, url, tokens, 0, u);
    var k :| 0 <= k < |tokens| && (forall m :: 0 <= m < k ==> !Stops(tokens[m])) && AnchorTo(env, url, tokens[k], u);
    var v := env.parse(Href(tokens[k].attrs)).value;
    assert HrefParsesAs(env, tokens[k], v) && u == env.resolve(url, v);
  }

  /**
   * The JobResult getLinksForSingleURL reports for `url` when its GET
   * answers `response`.
   */
  function PageResult(env: Env, url: Url, response: Response): JobResult
  {
    JobResult(url, if response.GetFailed? then [] else AnchorLinks(env, url, response.tokens))
  }

  /** The job results of a queue in queue order, each URL's GET answering page(u). */
  function Requested(env: Env, page: Url -> Response, queue: seq<Url>): seq<JobResult>
  {
    seq(|queue|, k requires 0 <= k < |queue| => PageResult(env, queue[k], page(queue[k])))
  }

  /**
   * What Links returns, when it returns: for every queue, one JobResult per
   * queued URL, the one getLinksForSingleURL builds from that URL's page,
   * in the order the jobs finish, which is left open.
   */
  ghost predicate LinksAnswers(env: Env, page: Url -> Response, fetch: seq<Url> -> seq<JobResult>)
  {
    forall queue: seq<Url> {:trigger fetch(queue)} :: multiset(fetch(queue)) == multiset(Requested(env, page, queue))
  }

  /** Every job result a batch fetch returns has a queued URL as its FromURL. */
  ghost predicate FromQueued(fetch: seq<Url> -> seq<JobResult>)
  {
    forall queue: seq<Url>, j {:trigger fetch(queue)[j]} :: 0 <= j < |fetch(queue)| ==> fetch(queue)[j].fromURL in queue
  }

  /**
   * Links answers a queue with exactly one result per queued URL: as many
   * results as URLs, each URL's own result among them, and no FromURL that
   * was not queued.
   */
  lemma LinksAnswersQueue(env: Env, page: Url -> Response, fetch: seq<Url> -> seq<JobResult>)
    requires LinksAnswers(env, page, fetch)
    ensures FromQueued(fetch)
    ensures forall queue: seq<Url> :: |fetch(queue)| == |queue|
    ensures forall queue: seq<Url>, k :: 0 <= k < |queue| ==> PageResult(env, queue[k], page(queue[k])) in fetch(queue)
  {
    forall queue: seq<Url>, j | 0 <= j < |fetch(queue)|
      ensures fetch(queue)[j].fromURL in queue
    {
      var want := Requested(env, page, queue);
      assert fetch(queue)[j] in multiset(fetch(queue));
      assert fetch(queue)[j] in multiset(want);
      var k :| 0 <= k < |want| && want[k] == fetch(queue)[j];
    }
    forall queue: seq<Url>
      ensures |fetch(queue)| == |queue|
    {
      assert |multiset(fetch(queue))| == |multiset(Requested(env, page, queue))|;
    }
    forall queue: seq<Url>, k | 0 <= k < |queue|
      ensures PageResult(env, queue[k], page(queue[k])) in fetch(queue)
    {
      var want := Requested(env, page, queue);
      assert want[k] in multiset(want);
    }
  }
}
