/** The request side of exporter/http.go: the request each fetch sends, the
    expansion of base targets into all their result pages (paginateTargets),
    the one message each fetch task puts on the result channel
    (getResponse and its goroutine), and the loop that drains that channel
    (asyncHTTPGets).

    The network is not modelled. What a request brought back is an input:
    a `Priming` for each base target's pagination request (with its Link
    header already parsed into `Link` values), a `Fetch` for each target of
    the main phase, and the order in which the fetch tasks' messages reach
    the channel. */
module Http {
  import opened Wrappers
  import opened Seqs
  import opened GoStrings

  newtype byte = b: int | 0 <= b < 256

  // ---------------------------------------------------------------------
  // getHTTPResponse: the request
  // ---------------------------------------------------------------------

  datatype Request = Request(verb: string, url: string, header: map<string, string>)

  /** The GET request for `url`; it carries `Authorization: token <t>`
      exactly when the token is non-empty, and no other header. */
  function NewRequest(url: string, token: string): (req: Request)
    ensures req.verb == "GET" && req.url == url
    ensures "Authorization" in req.header <==> token != ""
    ensures "Authorization" in req.header ==> req.header["Authorization"] == "token " + token
    ensures forall name :: name in req.header ==> name == "Authorization"
  {
    Request("GET", url, if token != "" then map["Authorization" := "token " + token] else map[])
  }

  // ---------------------------------------------------------------------
  // paginateTargets
  // ---------------------------------------------------------------------

  /** The marker before the page number in a page URL. */
  const PageParam := "&page="

  /** One entry of a parsed Link header. */
  datatype Link = Link(url: string, rel: string)

  /** The outcome of a base target's pagination request: the request failed,
      or it was answered, with the parsed first Link header if there was one. */
  datatype Priming = PrimingFailed(err: string) | Primed(link: Option<seq<Link>>)

  /** What line 60 makes of a priming outcome as written: a failed request
      leaves the response nil, and reading its header panics. */
  datatype LinkRead = Panic | LinkHeader(links: Option<seq<Link>>)

  /** The Link header lookup as the source has it. */
  function ReadLinkHeaderAsWritten(p: Priming): (r: LinkRead)
    ensures r.Panic? <==> p.PrimingFailed?
    ensures p.Primed? ==> r == LinkHeader(p.link)
  {
    match p
    case PrimingFailed(_) => Panic
    case Primed(link) => LinkHeader(link)
  }

  /** The Link header lookup as the logged error ("Error retrieving Link
      headers") intends it: a failed request counts as a response without
      a Link header. */
  function ReadLinkHeader(p: Priming): Option<seq<Link>> {
    match p
    case PrimingFailed(_) => None
    case Primed(link) => link
  }

  /** The first entry whose relation is "last" at or after `from`. */
  function FirstLastFrom(links: seq<Link>, from: nat): (r: Option<nat>)
    ensures r.Some? ==> from <= r.value < |links| && links[r.value].rel == "last"
    decreases |links| - from
  {
    if from >= |links| then None
    else if links[from].rel == "last" then Some(from)
    else FirstLastFrom(links, from + 1)
  }

  /** FirstLastFrom finds the first "last" entry: there is none before it,
      and none at all when it finds nothing. */
  lemma {:induction false} FirstLastFromFirst(links: seq<Link>, from: nat)
    ensures forall j :: from <= j < |links| && (FirstLastFrom(links, from).None? || j < FirstLastFrom(links, from).value)
              ==> links[j].rel != "last"
    decreases |links| - from
  {
    if from < |links| && links[from].rel != "last" {
      FirstLastFromFirst(links, from + 1);
    }
  }

  /** The index of the first entry with relation "last", if any. */
  function FirstLast(links: seq<Link>): Option<nat> {
    FirstLastFrom(links, 0)
  }

  /** The page number of a "last" link: the text after the last "&page="
      read as an int, or 0 when it is not one. */
  function LastPage(linkUrl: string): int {
    var subs := Split(linkUrl, PageParam);
    match Atoi(subs[|subs| - 1])
    case Some(n) => n
    case None => 0
  }

  /** The URL of page `page` of `base`. */
  function PageUrl(base: string, page: nat): string {
    base + PageParam + NatToString(page)
  }

  /** Pages 2 to `lastPage` of `base`, in ascending order. */
  function PageRange(base: string, lastPage: int): seq<string> {
    seq(if lastPage < 2 then 0 else lastPage - 1, k requires 0 <= k => PageUrl(base, k + 2))
  }

  /** The page URLs derived for one base target from its Link header. */
  function PagesFor(base: string, header: Option<seq<Link>>): seq<string> {
    match header
    case None => []
    case Some(links) =>
      match FirstLast(links)
      case None => []
      case Some(k) => PageRange(base, LastPage(links[k].url))
  }

  /** The derived pages of each base target, one block per target. */
  function PagesPerTarget(targets: seq<string>, headers: seq<Option<seq<Link>>>): (blocks: seq<seq<string>>)
    requires |headers| == |targets|
    ensures |blocks| == |targets|
  {
    seq(|targets|, i requires 0 <= i < |targets| => PagesFor(targets[i], headers[i]))
  }

  /** The result of paginateTargets: the base targets, unchanged and in
      order, then the derived pages of target 1, of target 2, and so on. */
  function Paginated(targets: seq<string>, headers: seq<Option<seq<Link>>>): seq<string>
    requires |headers| == |targets|
  {
    targets + Flatten(PagesPerTarget(targets, headers))
  }

  /** The Link headers the pagination requests of `primings` yield. */
  function LinkHeaders(primings: seq<Priming>): (headers: seq<Option<seq<Link>>>)
    ensures |headers| == |primings|
    ensures forall i :: 0 <= i < |primings| ==> headers[i] == ReadLinkHeader(primings[i])
  {
    seq(|primings|, i requires 0 <= i < |primings| => ReadLinkHeader(primings[i]))
  }

  /** The body of paginateTargets' loop for one base target: if its priming
      response has a Link header, find the first "last" entry, read its page
      number N and append pages 2 to N of `url`. */
  method AppendPages(paginated: seq<string>, url: string, header: Option<seq<Link>>)
    returns (extended: seq<string>)
    ensures extended == paginated + PagesFor(url, header)
  {
    extended := paginated;
    if header.Some? {
      var links := header.value;
      var j := 0;
      while j < |links|
        invariant 0 <= j <= |links|
        invariant forall jj :: 0 <= jj < j ==> links[jj].rel != "last"
        invariant extended == paginated
      {
        if links[j].rel == "last" {
          var lastPage := LastPage(links[j].url);
          var page := 2;
          while page <= lastPage
            invariant 2 <= page <= if lastPage < 2 then 2 else lastPage + 1
            invariant extended == paginated + PageRange(url, page - 1)
          {
            extended := extended + [PageUrl(url, page)];
            PageRangeStep(paginated, url, page);
            page := page + 1;
          }
          assert PageRange(url, page - 1) == PageRange(url, lastPage);
          FirstLastIs(links, j);
          return;
        }
        j := j + 1;
      }
    }
  }

  /** One more page adds its URL at the end. */
  lemma PageRangeStep(front: seq<string>, base: string, page: int)
    requires page >= 2
    ensures front + PageRange(base, page - 1) + [PageUrl(base, page)] == front + PageRange(base, page)
  {
    assert PageRange(base, page - 1) + [PageUrl(base, page)] == PageRange(base, page);
  }

  /** How paginateTargets ends as written: with the expanded list, or with
      a panic when a pagination request failed and its nil response is
      read. */
  datatype Expansion = Panicked | Expanded(urls: seq<string>)

  /** Some pagination request failed. */
  predicate SomePrimingFailed(primings: seq<Priming>) {
    exists i :: 0 <= i < |primings| && primings[i].PrimingFailed?
  }

  /** The first `n` pagination requests were answered. */
  predicate PrimedBefore(primings: seq<Priming>, n: nat) {
    forall j :: 0 <= j < n && j < |primings| ==> primings[j].Primed?
  }

  /** paginateTargets as written: each base target's Link header is read
      at line 60 whether or not its pagination request succeeded, so the
      first failed request panics. When every request was answered, the
      result is the full expansion. */
  method PaginateTargetsAsWritten(targets: seq<string>, primings: seq<Priming>) returns (e: Expansion)
    requires |primings| == |targets|
    ensures e.Panicked? <==> SomePrimingFailed(primings)
    ensures e.Expanded? ==> e.urls == Paginated(targets, LinkHeaders(primings))
  {
    ghost var headers := LinkHeaders(primings);
    ghost var blocks := PagesPerTarget(targets, headers);
    var paginated := targets;
    for i := 0 to |targets|
      invariant paginated == targets + Flatten(blocks[..i])
      invariant PrimedBefore(primings, i)
    {
      var read := ReadLinkHeaderAsWritten(primings[i]);
      if read.Panic? {
        assert primings[i].PrimingFailed?;
        return Panicked;
      }
      assert headers[i] == read.links;
      assert blocks[i] == PagesFor(targets[i], read.links);
      paginated := AppendPages(paginated, targets[i], read.links);
      FlattenStep(targets, blocks, i);
    }
    assert blocks[..|blocks|] == blocks;
    return Expanded(paginated);
  }

  /** paginateTargets as the logged error "Error retrieving Link headers"
      intends it: a failed pagination request counts as a response without
      a Link header. The result is the base targets, then, target by
      target, the pages each one's Link header advertises. */
  method PaginateTargets(targets: seq<string>, primings: seq<Priming>) returns (paginated: seq<string>)
    requires |primings| == |targets|
    ensures paginated == Paginated(targets, LinkHeaders(primings))
  {
    ghost var blocks := PagesPerTarget(targets, LinkHeaders(primings));
    paginated := targets;
    for i := 0 to |targets|
      invariant paginated == targets + Flatten(blocks[..i])
    {
      assert blocks[i] == PagesFor(targets[i], ReadLinkHeader(primings[i]));
      paginated := AppendPages(paginated, targets[i], ReadLinkHeader(primings[i]));
      FlattenStep(targets, blocks, i);
    }
    assert blocks[..|blocks|] == blocks;
  }

  /** Expanding a list of targets is expanding its parts: the pages derived
      for the first block of targets come before those of the second. */
  lemma PaginatedAppend(t1: seq<string>, h1: seq<Option<seq<Link>>>, t2: seq<string>, h2: seq<Option<seq<Link>>>)
    requires |h1| == |t1| && |h2| == |t2|
    ensures Paginated(t1 + t2, h1 + h2)
            == t1 + t2 + Flatten(PagesPerTarget(t1, h1)) + Flatten(PagesPerTarget(t2, h2))
  {
    assert PagesPerTarget(t1 + t2, h1 + h2) == PagesPerTarget(t1, h1) + PagesPerTarget(t2, h2);
    FlattenAppend(PagesPerTarget(t1, h1), PagesPerTarget(t2, h2));
  }

  lemma PageParamNoSelfOverlap()
    ensures NoSelfOverlap(PageParam) && !IsDigit(PageParam[0])
  {
    assert PageParam[1..] == "page=";
  }

  /** A page URL read back as a "last" link gives its own page number. */
  lemma LastPageOfPageUrl(base: string, page: nat)
    ensures LastPage(PageUrl(base, page)) == page
  {
    PageUrlLastPiece(base, page);
    AtoiNatToString(page);
  }

  /** The text after the last "&page=" of a page URL is its page number. */
  lemma PageUrlLastPiece(base: string, page: nat)
    ensures var subs := Split(PageUrl(base, page), PageParam);
      subs[|subs| - 1] == NatToString(page)
  {
    var u, digits := PageUrl(base, page), NatToString(page);
    PageParamNoSelfOverlap();
    assert u[|base|..|base| + |PageParam|] == PageParam;
    MatchAtSlice(u, PageParam, |base|);
    assert u[|base| + |PageParam|..] == digits;
    DigitsSepFree(digits, PageParam);
    SplitLastPiece(u, PageParam, |base|);
  }

  /** Target `base` with last page N gains exactly N - 1 pages (none when
      N <= 1), and the k-th added URL is base + "&page=" + (k + 2): read
      back, the pages run 2, 3, ..., N in ascending order. */
  lemma PageRangeShape(base: string, lastPage: int)
    ensures |PageRange(base, lastPage)| == if lastPage <= 1 then 0 else lastPage - 1
    ensures forall k :: 0 <= k < |PageRange(base, lastPage)| ==>
              PageRange(base, lastPage)[k] == base + "&page=" + NatToString(k + 2)
              && LastPage(PageRange(base, lastPage)[k]) == k + 2
  {
    forall k | 0 <= k < |PageRange(base, lastPage)|
      ensures LastPage(PageRange(base, lastPage)[k]) == k + 2
    {
      LastPageOfPageUrl(base, k + 2);
    }
  }

  /** The first "last" entry is the one FirstLast finds. */
  lemma FirstLastIs(links: seq<Link>, k: nat)
    requires k < |links| && links[k].rel == "last"
    requires forall j :: 0 <= j < k ==> links[j].rel != "last"
    ensures FirstLast(links) == Some(k)
  {
    FirstLastFromFirst(links, 0);
  }

  /** Only the first "last" entry is consulted: whatever follows it in the
      header does not matter. */
  lemma OnlyFirstLastLinkCounts(base: string, links: seq<Link>, k: nat, more: seq<Link>)
    requires k < |links| && links[k].rel == "last"
    requires forall j :: 0 <= j < k ==> links[j].rel != "last"
    ensures PagesFor(base, Some(links)) == PageRange(base, LastPage(links[k].url))
    ensures PagesFor(base, Some(links[..k + 1] + more)) == PagesFor(base, Some(links))
  {
    var l := links[..k + 1] + more;
    assert l[k] == links[k];
    FirstLastIs(links, k);
    FirstLastIs(l, k);
  }

  /** No Link header, no "last" entry, or an unreadable or small page
      number: no pages are added for the target. */
  lemma NoPagesWithoutLastLink(base: string, header: Option<seq<Link>>)
    requires header.None?
             || (forall j :: 0 <= j < |header.value| ==> header.value[j].rel != "last")
             || (forall j :: 0 <= j < |header.value| ==> LastPage(header.value[j].url) <= 1)
    ensures PagesFor(base, header) == []
  {
    if header.Some? {
      FirstLastFromFirst(header.value, 0);
    }
  }

  /** When the text after the last "&page=" is not a number, the page
      number is 0 and no pages are added; a negative one adds none either. */
  lemma UnreadablePageNumber(base: string, linkUrl: string)
    requires var subs := Split(linkUrl, PageParam);
      Atoi(subs[|subs| - 1]).None? || Atoi(subs[|subs| - 1]).value <= 1
    ensures Atoi(Split(linkUrl, PageParam)[|Split(linkUrl, PageParam)| - 1]).None? ==> LastPage(linkUrl) == 0
    ensures PageRange(base, LastPage(linkUrl)) == []
  {
  }

  /** A failed pagination request (corrected reading) adds no pages for its
      target, and the other targets expand as they would without it. */
  lemma PrimingFailureAddsNothing(base: string, err: string, ts: seq<string>, ps: seq<Priming>)
    requires |ps| == |ts|
    ensures PagesFor(base, ReadLinkHeader(PrimingFailed(err))) == []
    ensures Paginated([base] + ts, LinkHeaders([PrimingFailed(err)] + ps))
            == [base] + ts + Flatten(PagesPerTarget(ts, LinkHeaders(ps)))
  {
    LinkHeadersCons(PrimingFailed(err), ps);
    PaginatedAppend([base], [None], ts, LinkHeaders(ps));
    assert PagesPerTarget([base], [None]) == [[]];
    FlattenSingle<string>([]);
  }

  /** The Link headers of one more pagination request, put first. */
  lemma LinkHeadersCons(p: Priming, ps: seq<Priming>)
    ensures LinkHeaders([p] + ps) == [ReadLinkHeader(p)] + LinkHeaders(ps)
  {
    var l, r := LinkHeaders([p] + ps), [ReadLinkHeader(p)] + LinkHeaders(ps);
    forall i | 0 <= i < |l| ensures l[i] == r[i] {
      if i > 0 {
        assert ([p] + ps)[i] == ps[i - 1];
      }
    }
  }

  /** A target whose Link header advertises page 2 as "next" and page 5
      as "last" expands to the target followed
      by its pages 2, 3, 4 and 5. */
  lemma NextAndLastExample(base: string)
    ensures var links := [Link(PageUrl(base, 2), "next"), Link(PageUrl(base, 5), "last")];
      Paginated([base], [Some(links)])
        == [base, PageUrl(base, 2), PageUrl(base, 3), PageUrl(base, 4), PageUrl(base, 5)]
  {
    var links := [Link(PageUrl(base, 2), "next"), Link(PageUrl(base, 5), "last")];
    LastPageOfPageUrl(base, 5);
    assert "next" != "last" by { assert "next"[0] != "last"[0]; }
    assert FirstLastFrom(links, 1) == Some(1);
    assert FirstLast(links) == Some(1);
    var blocks := PagesPerTarget([base], [Some(links)]);
    assert blocks == [PageRange(base, 5)];
    assert blocks[..0] == [];
    assert Flatten(blocks) == Flatten(blocks[..0]) + blocks[0];
    assert PageRange(base, 5) == [PageUrl(base, 2), PageUrl(base, 3), PageUrl(base, 4), PageUrl(base, 5)];
  }

  // ---------------------------------------------------------------------
  // getResponse and the fetch task
  // ---------------------------------------------------------------------

  const StatusNotFound := 404
  const BodyErrorPrefix := "error converting body to byte array: "
  const NotFoundMessage := "error: Received 404 status from Github API, ensure the repsository URL is correct. If it's a privare repository, also check the oauth token is correct"

  /** The outcome of one main-phase GET: no response (request or transport
      error), a response whose body could not be read, or a status and body. */
  datatype Fetch = TransportFailed(err: string) | ReadFailed(status: int, err: string) | Received(status: int, body: seq<byte>)

  /** A message on the result channel: the target, the response status when
      there was one, the body and the error. */
  datatype Response = Response(url: string, status: Option<int>, body: seq<byte>, err: Option<string>)

  /** A fetch that yields a successful message. */
  predicate Succeeds(f: Fetch) {
    f.Received? && f.status != StatusNotFound
  }

  /** getResponse: what it sends on the channel and the error it returns. */
  function GetResponse(url: string, fetch: Fetch): (seq<Response>, Option<string>) {
    match fetch
    case TransportFailed(e) => ([], Some(BodyErrorPrefix + e))
    case ReadFailed(_, e) => ([], Some(BodyErrorPrefix + e))
    case Received(status, body) =>
      if status == StatusNotFound then ([], Some(NotFoundMessage))
      else ([Response(url, Some(status), body, None)], None)
  }

  /** The fetch task of one target: getResponse, then one error message of
      its own when getResponse failed. It sends exactly one message, for its
      own target; that message is error-free exactly when the body was read
      and the status is not 404 (any other status counts, 2xx or not), and
      a 404 gets the dedicated message. */
  function Worker(url: string, fetch: Fetch): (sent: seq<Response>)
    ensures |sent| == 1 && sent[0].url == url
    ensures sent[0].err.None? <==> Succeeds(fetch)
    ensures sent[0].err.None? ==> sent[0].status == Some(fetch.status) && sent[0].body == fetch.body
    ensures sent[0].err.Some? ==> sent[0].status.None? && sent[0].body == []
    ensures fetch.Received? && fetch.status == StatusNotFound ==> sent[0].err == Some(NotFoundMessage)
    ensures !fetch.Received? ==> sent[0].err == Some(BodyErrorPrefix + fetch.err)
  {
    var (msgs, err) := GetResponse(url, fetch);
    msgs + if err.Some? then [Response(url, None, [], err)] else []
  }

  // ---------------------------------------------------------------------
  // The drain loop of asyncHTTPGets
  // ---------------------------------------------------------------------

  /** The number of error-free messages before the first error. */
  function FirstError(arrivals: seq<Response>): (k: nat)
    ensures k <= |arrivals|
    ensures forall j :: 0 <= j < k ==> arrivals[j].err.None?
    ensures k < |arrivals| ==> arrivals[k].err.Some?
  {
    if arrivals == [] || arrivals[0].err.Some? then 0 else 1 + FirstError(arrivals[1..])
  }

  /** How the drain loop ends: it returns what it collected, or it waits on
      the channel for ever and asyncHTTPGets never returns. */
  datatype Drained = Returned(responses: seq<Response>) | Blocked

  /** The drain loop as written: the channel is never closed, so `range`
      ends only at the `break` on an error. */
  function DrainOutcome(arrivals: seq<Response>): Drained {
    var k := FirstError(arrivals);
    if k < |arrivals| then Returned(arrivals[..k]) else Blocked
  }

  /** The drain loop as written, over the messages that reach the channel
      in arrival order. It returns the error-free messages before the first
      error (the error itself is dropped) and blocks when no message carries
      an error. */
  method Drain(arrivals: seq<Response>) returns (d: Drained)
    ensures d == DrainOutcome(arrivals)
    ensures d.Blocked? <==> forall k :: 0 <= k < |arrivals| ==> arrivals[k].err.None?
    ensures d.Returned? ==> |d.responses| < |arrivals| && arrivals[|d.responses|].err.Some?
    ensures d.Returned? ==> d.responses == arrivals[..|d.responses|]
  {
    var responses: seq<Response> := [];
    var i := 0;
    while i < |arrivals|
      invariant 0 <= i <= |arrivals|
      invariant responses == arrivals[..i]
      invariant forall k :: 0 <= k < i ==> arrivals[k].err.None?
    {
      var r := arrivals[i];
      if r.err.Some? {
        return Returned(responses);
      }
      responses := responses + [r];
      i := i + 1;
    }
    return Blocked;
  }

  /** A scrape of a single target whose fetch succeeds never returns:
      the only message is error-free and nothing else ever arrives. */
  lemma SuccessfulScrapeNeverReturns(url: string, status: int, body: seq<byte>)
    requires status != StatusNotFound
    ensures DrainOutcome(Worker(url, Received(status, body))) == Blocked
  {
  }

  /** The drain loop as intended: read one message per target, stopping
      at the first error. It returns the error-free prefix of the arrivals,
      never more messages than there are targets, and all of them when no
      fetch failed. */
  method DrainOnePerTarget(arrivals: seq<Response>) returns (responses: seq<Response>)
    ensures responses == arrivals[..FirstError(arrivals)]
    ensures |responses| == |arrivals| <==> forall k :: 0 <= k < |arrivals| ==> arrivals[k].err.None?
    ensures forall k :: 0 <= k < |responses| ==> responses[k].err.None?
  {
    responses := [];
    for i := 0 to |arrivals|
      invariant responses == arrivals[..i]
      invariant forall k :: 0 <= k < i ==> arrivals[k].err.None?
    {
      var r := arrivals[i];
      if r.err.Some? {
        return;
      }
      responses := responses + [r];
    }
    assert arrivals[..|arrivals|] == arrivals;
  }

  // ---------------------------------------------------------------------
  // asyncHTTPGets
  // ---------------------------------------------------------------------

  /** `order[k]` is the target whose message arrives k-th: every target's
      message arrives exactly once. */
  predicate IsArrivalOrder(order: seq<nat>, n: nat) {
    && |order| == n
    && (forall k :: 0 <= k < n ==> order[k] < n)
    && (forall j, k :: 0 <= j < k < n ==> order[j] != order[k])
    && (forall i :: 0 <= i < n ==> i in order)
  }

  /** The messages in arrival order: the k-th is the one sent by the fetch
      task of target `order[k]`. */
  function Arrivals(expanded: seq<string>, fetches: seq<Fetch>, order: seq<nat>): (arrivals: seq<Response>)
    requires |fetches| == |expanded| && IsArrivalOrder(order, |expanded|)
    ensures |arrivals| == |expanded|
  {
    seq(|expanded|, k requires 0 <= k < |expanded| => Worker(expanded[order[k]], fetches[order[k]])[0])
  }

  /** No message carries an error exactly when every fetch succeeded, and
      every message is for one of the targets. */
  lemma ArrivalsFacts(expanded: seq<string>, fetches: seq<Fetch>, order: seq<nat>)
    requires |fetches| == |expanded| && IsArrivalOrder(order, |expanded|)
    ensures var arrivals := Arrivals(expanded, fetches, order);
      && ((forall k :: 0 <= k < |arrivals| ==> arrivals[k].err.None?)
          <==> forall i :: 0 <= i < |fetches| ==> Succeeds(fetches[i]))
      && (forall k :: 0 <= k < |arrivals| ==> arrivals[k].url in expanded)
  {
    var arrivals := Arrivals(expanded, fetches, order);
    var n := |expanded|;
    forall k | 0 <= k < n
      ensures (arrivals[k].err.None? <==> Succeeds(fetches[order[k]])) && arrivals[k].url in expanded
    {
      var sent := Worker(expanded[order[k]], fetches[order[k]]);
      assert arrivals[k] == sent[0];
    }
    if forall k :: 0 <= k < n ==> arrivals[k].err.None? {
      forall i | 0 <= i < n ensures Succeeds(fetches[i]) {
        assert i in order;
        var k :| 0 <= k < |order| && order[k] == i;
        assert arrivals[k].err.None?;
      }
    }
  }

  /** asyncHTTPGets with the corrected pagination and the intended drain:
      expand the targets, run one fetch task per expanded target, and
      collect the messages in arrival order until the first error. The
      responses are the messages before the first error, each carrying the
      status and body its successful fetch read; all of them come back
      exactly when every fetch succeeded. */
  method AsyncHttpGets(targets: seq<string>, primings: seq<Priming>, fetches: seq<Fetch>, order: seq<nat>)
    returns (responses: seq<Response>)
    requires |primings| == |targets|
    requires |fetches| == |Paginated(targets, LinkHeaders(primings))|
    requires IsArrivalOrder(order, |fetches|)
    ensures var arrivals := Arrivals(Paginated(targets, LinkHeaders(primings)), fetches, order);
      responses == arrivals[..FirstError(arrivals)]
    ensures forall k :: 0 <= k < |responses| ==>
              && Succeeds(fetches[order[k]])
              && responses[k] == Response(Paginated(targets, LinkHeaders(primings))[order[k]],
                                          Some(fetches[order[k]].status), fetches[order[k]].body, None)
    ensures |responses| <= |fetches|
    ensures |responses| == |fetches| <==> forall i :: 0 <= i < |fetches| ==> Succeeds(fetches[i])
    ensures forall r :: r in responses ==> r.err.None? && r.url in Paginated(targets, LinkHeaders(primings))
  {
    var expanded := PaginateTargets(targets, primings);
    var arrivals := Arrivals(expanded, fetches, order);
    responses := DrainOnePerTarget(arrivals);
    ArrivalsFacts(expanded, fetches, order);
    ErrorFreeArrivals(expanded, fetches, order);
    forall r | r in responses ensures r.url in expanded {
      var k :| 0 <= k < |responses| && responses[k] == r;
      assert r == arrivals[k];
    }
  }

  /** Every message before the first error comes from a fetch that
      succeeded, and it carries that fetch's status and body for its own
      target. */
  lemma ErrorFreeArrivals(expanded: seq<string>, fetches: seq<Fetch>, order: seq<nat>)
    requires |fetches| == |expanded| && IsArrivalOrder(order, |expanded|)
    ensures var arrivals := Arrivals(expanded, fetches, order);
      forall k :: 0 <= k < FirstError(arrivals) ==>
        && Succeeds(fetches[order[k]])
        && arrivals[k] == Response(expanded[order[k]], Some(fetches[order[k]].status), fetches[order[k]].body, None)
  {
    var arrivals := Arrivals(expanded, fetches, order);
    forall k | 0 <= k < FirstError(arrivals)
      ensures Succeeds(fetches[order[k]])
      ensures arrivals[k] == Response(expanded[order[k]], Some(fetches[order[k]].status), fetches[order[k]].body, None)
    {
      var sent := Worker(expanded[order[k]], fetches[order[k]]);
      assert arrivals[k] == sent[0];
    }
  }
}
