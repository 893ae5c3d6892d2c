/** exporter/gather.go: sniffing whether a response body is a JSON array,
    collecting the decoded records of all responses (gatherData) and reading
    the rate-limit headers of the rate endpoint (getRates).

    JSON decoding and strconv.ParseFloat are not modelled: they are function
    parameters (`decodeList` for an array body, `decodeOne` for an object
    body, `parse` for a header value), so every statement here holds for any
    decoder and any float representation `F`. The rate endpoint's answer is
    an input, a `Probe`, as the fetches are in Http. */
module Gather {
  import opened Wrappers
  import opened Seqs
  import opened Http

  // ---------------------------------------------------------------------
  // isArray
  // ---------------------------------------------------------------------

  /** The bytes isArray skips: space, tab, carriage return, line feed. */
  predicate IsJsonSpace(c: byte) {
    c == 32 || c == 9 || c == 13 || c == 10
  }

  /** The byte '['. */
  const OpenBracket: byte := 91

  /** The index of the first byte of `body` at or after `from` that is not
      skipped, or |body| when there is none. */
  function SignificantFrom(body: seq<byte>, from: nat): (k: nat)
    requires from <= |body|
    ensures from <= k <= |body|
    ensures forall j :: from <= j < k ==> IsJsonSpace(body[j])
    ensures k < |body| ==> !IsJsonSpace(body[k])
    decreases |body| - from
  {
    if from == |body| || !IsJsonSpace(body[from]) then from else SignificantFrom(body, from + 1)
  }

  /** The body starts, after skipped bytes, with '['. */
  predicate IsArrayBody(body: seq<byte>) {
    var k := SignificantFrom(body, 0);
    k < |body| && body[k] == OpenBracket
  }

  /** isArray: skip white space; the first other byte decides, and the
      answer is whether it is '['. */
  method IsArray(body: seq<byte>) returns (isArray: bool)
    ensures isArray == IsArrayBody(body)
  {
    isArray := false;
    for i := 0 to |body|
      invariant forall j :: 0 <= j < i ==> IsJsonSpace(body[j])
      invariant !isArray
    {
      var c := body[i];
      if IsJsonSpace(c) {
        continue;
      }
      isArray := c == OpenBracket;
      break;
    }
  }

  /** A body counts as an array exactly when some byte is '[' and only
      skipped bytes come before it; an empty or all-white-space body does
      not. */
  lemma IsArrayBodyMeaning(body: seq<byte>)
    ensures IsArrayBody(body) <==>
      exists k :: 0 <= k < |body| && body[k] == OpenBracket && forall j :: 0 <= j < k ==> IsJsonSpace(body[j])
    ensures (forall j :: 0 <= j < |body| ==> IsJsonSpace(body[j])) ==> !IsArrayBody(body)
  {
    var k := SignificantFrom(body, 0);
    if exists k' :: 0 <= k' < |body| && body[k'] == OpenBracket && forall j :: 0 <= j < k' ==> IsJsonSpace(body[j]) {
      var k' :| 0 <= k' < |body| && body[k'] == OpenBracket && forall j :: 0 <= j < k' ==> IsJsonSpace(body[j]);
      assert !IsJsonSpace(body[k']);
      assert k == k';
    }
  }

  /** Only the first significant byte matters: the bytes after it can be
      anything. */
  lemma IsArrayIgnoresTail(lead: seq<byte>, tail1: seq<byte>, tail2: seq<byte>)
    requires lead != [] && !IsJsonSpace(lead[|lead| - 1])
    requires forall j :: 0 <= j < |lead| - 1 ==> IsJsonSpace(lead[j])
    ensures IsArrayBody(lead + tail1) == IsArrayBody(lead + tail2) == (lead[|lead| - 1] == OpenBracket)
  {
    FirstSignificantOf(lead, tail1);
    FirstSignificantOf(lead, tail2);
  }

  /** The first significant byte of `lead + tail` is the last byte of `lead`
      when only skipped bytes come before it. */
  lemma FirstSignificantOf(lead: seq<byte>, tail: seq<byte>)
    requires lead != [] && !IsJsonSpace(lead[|lead| - 1])
    requires forall j :: 0 <= j < |lead| - 1 ==> IsJsonSpace(lead[j])
    ensures SignificantFrom(lead + tail, 0) == |lead| - 1
  {
    var b := lead + tail;
    assert b[|lead| - 1] == lead[|lead| - 1];
    assert forall j :: 0 <= j < |lead| - 1 ==> b[j] == lead[j];
  }

  // ---------------------------------------------------------------------
  // gatherData: the records of all responses
  // ---------------------------------------------------------------------

  /** The records one response body contributes: all elements of an array
      body, or the one record of an object body; or the decode error. */
  function Contribution<D>(body: seq<byte>, decodeList: seq<byte> -> Result<seq<D>>, decodeOne: seq<byte> -> Result<D>)
    : Result<seq<D>>
  {
    if IsArrayBody(body) then decodeList(body)
    else match decodeOne(body)
      case Err(e) => Err(e)
      case Ok(d) => Ok([d])
  }

  /** Adding one more contribution: an earlier error stays, a new error
      replaces the records, otherwise the records are appended. */
  function Combine<D>(acc: Result<seq<D>>, next: Result<seq<D>>): Result<seq<D>> {
    match acc
    case Err(_) => acc
    case Ok(data) =>
      match next
      case Err(e) => Err(e)
      case Ok(ds) => Ok(data + ds)
  }

  /** The records of the responses, in response order, or the first decode
      error. */
  function Collect<D>(responses: seq<Response>, decodeList: seq<byte> -> Result<seq<D>>, decodeOne: seq<byte> -> Result<D>)
    : Result<seq<D>>
  {
    if responses == [] then Ok([])
    else
      var n := |responses| - 1;
      Combine(Collect(responses[..n], decodeList, decodeOne), Contribution(responses[n].body, decodeList, decodeOne))
  }

  /** The records of the first i + 1 responses are those of the first i
      combined with the contribution of response i. */
  lemma CollectStep<D>(responses: seq<Response>, i: nat, decodeList: seq<byte> -> Result<seq<D>>, decodeOne: seq<byte> -> Result<D>)
    requires i < |responses|
    ensures Collect(responses[..i + 1], decodeList, decodeOne)
            == Combine(Collect(responses[..i], decodeList, decodeOne), Contribution(responses[i].body, decodeList, decodeOne))
  {
    assert responses[..i + 1][..i] == responses[..i];
  }

  /** The index of the first response whose body fails to decode, or the
      number of responses when none does. */
  function FirstFailure<D>(responses: seq<Response>, decodeList: seq<byte> -> Result<seq<D>>, decodeOne: seq<byte> -> Result<D>)
    : (k: nat)
    ensures k <= |responses|
    ensures forall j :: 0 <= j < k ==> Contribution(responses[j].body, decodeList, decodeOne).Ok?
    ensures k < |responses| ==> Contribution(responses[k].body, decodeList, decodeOne).Err?
  {
    if responses == [] || Contribution(responses[0].body, decodeList, decodeOne).Err? then 0
    else 1 + FirstFailure(responses[1..], decodeList, decodeOne)
  }

  /** The decoded records of each response, one block per response. */
  function Contributions<D>(responses: seq<Response>, decodeList: seq<byte> -> Result<seq<D>>, decodeOne: seq<byte> -> Result<D>)
    : (blocks: seq<seq<D>>)
    requires forall j :: 0 <= j < |responses| ==> Contribution(responses[j].body, decodeList, decodeOne).Ok?
    ensures |blocks| == |responses|
  {
    seq(|responses|, j requires 0 <= j < |responses| => Contribution(responses[j].body, decodeList, decodeOne).value)
  }

  /** Collecting succeeds exactly when every body decodes, and then the
      records are the decoded blocks one after another, in response order;
      otherwise the error is that of the first body that fails. */
  lemma {:induction false} CollectMeaning<D>(responses: seq<Response>, decodeList: seq<byte> -> Result<seq<D>>, decodeOne: seq<byte> -> Result<D>)
    ensures var k := FirstFailure(responses, decodeList, decodeOne);
      && (Collect(responses, decodeList, decodeOne).Ok? <==> k == |responses|)
      && (k < |responses| ==>
            Collect(responses, decodeList, decodeOne)
            == Err(Contribution(responses[k].body, decodeList, decodeOne).error))
      && (k == |responses| ==>
            Collect(responses, decodeList, decodeOne).value == Flatten(Contributions(responses, decodeList, decodeOne)))
    decreases |responses|
  {
    if responses != [] {
      var n := |responses| - 1;
      var front := responses[..n];
      CollectMeaning(front, decodeList, decodeOne);
      FirstFailureOfFront(responses, decodeList, decodeOne);
      var k := FirstFailure(responses, decodeList, decodeOne);
      if k == |responses| {
        var blocks := Contributions(responses, decodeList, decodeOne);
        assert blocks[..n] == Contributions(front, decodeList, decodeOne);
      }
    }
  }

  /** Dropping the last response: the first failure is the same unless it
      was the last response, and then the front has none. */
  lemma {:induction false} FirstFailureOfFront<D>(responses: seq<Response>, decodeList: seq<byte> -> Result<seq<D>>, decodeOne: seq<byte> -> Result<D>)
    requires responses != []
    ensures var n := |responses| - 1;
      var k, kf := FirstFailure(responses, decodeList, decodeOne), FirstFailure(responses[..n], decodeList, decodeOne);
      (if kf < n then k == kf else k >= n)
  {
    var n := |responses| - 1;
    var front := responses[..n];
    var k, kf := FirstFailure(responses, decodeList, decodeOne), FirstFailure(front, decodeList, decodeOne);
    assert forall j :: 0 <= j < n ==> front[j] == responses[j];
  }

  /** An object body contributes exactly one record, an array body all the
      elements its decoder returns. */
  lemma ContributionShape<D>(body: seq<byte>, decodeList: seq<byte> -> Result<seq<D>>, decodeOne: seq<byte> -> Result<D>)
    ensures !IsArrayBody(body) && decodeOne(body).Ok? ==>
              Contribution(body, decodeList, decodeOne) == Ok([decodeOne(body).value])
    ensures !IsArrayBody(body) && decodeOne(body).Err? ==>
              Contribution(body, decodeList, decodeOne) == Err(decodeOne(body).error)
    ensures IsArrayBody(body) ==> Contribution(body, decodeList, decodeOne) == decodeList(body)
  {
  }

  // ---------------------------------------------------------------------
  // getRates
  // ---------------------------------------------------------------------

  /** The path of the rate endpoint. */
  const RateEndpoint := "/rate_limit"
  const RateLimitingDisabled := "rate Limiting not enabled in GitHub API"

  /** The answer of the rate endpoint: no response, or a status and the
      response headers, each stored under its canonical name (as Go's
      reader stores received headers, "X-Ratelimit-Limit" for instance)
      with its values. */
  datatype Probe = ProbeFailed(err: string) | ProbeAnswered(status: int, header: map<string, seq<string>>)

  /** The three rate-limit figures, in the float representation `F` the
      parser produces. */
  datatype RateLimits<F> = RateLimits(limit: F, remaining: F, reset: F)

  /** The request getRates sends: a GET of baseURL + "/rate_limit" with the
      same Authorization rule as every other request. */
  function RateRequest(baseUrl: string, token: string): (req: Request)
    ensures req == NewRequest(baseUrl + RateEndpoint, token)
    ensures |req.url| == |baseUrl| + |RateEndpoint| && req.url[..|baseUrl|] == baseUrl
            && req.url[|baseUrl|..] == RateEndpoint
  {
    NewRequest(baseUrl + RateEndpoint, token)
  }

  /** The characters Go accepts in a header name: the token characters of
      section 5.6.2 of RFC 9110. */
  predicate IsTokenChar(c: char) {
    ('a' <= c <= 'z') || ('A' <= c <= 'Z') || ('0' <= c <= '9') || c in "!#$%&'*+-.^_`|~"
  }

  /** The letters of `s` in canonical case: upper case first (when `upper`)
      and after each '-', lower case everywhere else. */
  function CanonicalCase(s: string, upper: bool): (r: string)
    ensures |r| == |s|
  {
    if s == "" then ""
    else
      var c := s[0];
      var d := if upper && 'a' <= c <= 'z' then (c as int - 32) as char
               else if !upper && 'A' <= c <= 'Z' then (c as int + 32) as char
               else c;
      [d] + CanonicalCase(s[1..], c == '-')
  }

  /** textproto.CanonicalMIMEHeaderKey: the canonical case of a header
      name, or the name unchanged when it holds a non-token character. */
  function CanonicalHeaderKey(name: string): string {
    if forall k :: 0 <= k < |name| ==> IsTokenChar(name[k]) then CanonicalCase(name, true) else name
  }

  /** Header.Get: the first value stored under the canonical form of the
      name, or "" when there is none. */
  function HeaderGet(header: map<string, seq<string>>, name: string): string {
    var key := CanonicalHeaderKey(name);
    if key in header && header[key] != [] then header[key][0] else ""
  }

  /** Canonical case is a fixed point of itself: a header stored under its
      canonical name is found by that name. */
  lemma {:induction false} CanonicalCaseIdempotent(s: string, upper: bool)
    ensures CanonicalCase(CanonicalCase(s, upper), upper) == CanonicalCase(s, upper)
    decreases |s|
  {
    if s != "" {
      var r := CanonicalCase(s, upper);
      CanonicalCaseIdempotent(s[1..], s[0] == '-');
      assert r[0] == '-' <==> s[0] == '-';
      assert r[1..] == CanonicalCase(s[1..], s[0] == '-');
    }
  }

  /** Canonical case keeps every character a token character. */
  lemma {:induction false} CanonicalCaseTokens(s: string, upper: bool)
    requires forall k :: 0 <= k < |s| ==> IsTokenChar(s[k])
    ensures var r := CanonicalCase(s, upper); forall k :: 0 <= k < |r| ==> IsTokenChar(r[k])
    decreases |s|
  {
    if s != "" {
      var r := CanonicalCase(s, upper);
      CanonicalCaseTokens(s[1..], s[0] == '-');
      assert IsTokenChar(s[0]);
      assert forall k :: 1 <= k < |r| ==> r[k] == CanonicalCase(s[1..], s[0] == '-')[k - 1];
    }
  }

  /** Asking for a header by any spelling of its name is asking for it by
      the canonical name it is stored under. */
  lemma HeaderGetCanonicalName(header: map<string, seq<string>>, name: string)
    ensures HeaderGet(header, CanonicalHeaderKey(name)) == HeaderGet(header, name)
    ensures CanonicalHeaderKey(name) in header && header[CanonicalHeaderKey(name)] != [] ==>
              HeaderGet(header, name) == header[CanonicalHeaderKey(name)][0]
  {
    CanonicalHeaderKeyIdempotent(name);
  }

  /** Canonicalising a header name twice is canonicalising it once. */
  lemma CanonicalHeaderKeyIdempotent(name: string)
    ensures CanonicalHeaderKey(CanonicalHeaderKey(name)) == CanonicalHeaderKey(name)
  {
    if forall k :: 0 <= k < |name| ==> IsTokenChar(name[k]) {
      CanonicalCaseTokens(name, true);
      CanonicalCaseIdempotent(name, true);
    }
  }

  const LimitHeader := "X-RateLimit-Limit"
  const RemainingHeader := "X-RateLimit-Remaining"
  const ResetHeader := "X-RateLimit-Reset"

  /** getRates: a failed request gives its error; a 404 gives the
      rate-limiting-disabled error before any header is read; otherwise the
      three headers are parsed in the order Limit, Remaining, Reset and the
      first parse error is the result. */
  function GetRates<F>(probe: Probe, parse: string -> Result<F>): (r: Result<RateLimits<F>>)
    ensures probe.ProbeFailed? ==> r == Err(probe.err)
    ensures probe.ProbeAnswered? && probe.status == StatusNotFound ==> r == Err(RateLimitingDisabled)
  {
    match probe
    case ProbeFailed(e) => Err(e)
    case ProbeAnswered(status, header) =>
      if status == StatusNotFound then Err(RateLimitingDisabled)
      else
        match parse(HeaderGet(header, LimitHeader))
        case Err(e) => Err(e)
        case Ok(limit) =>
          match parse(HeaderGet(header, RemainingHeader))
          case Err(e) => Err(e)
          case Ok(remaining) =>
            match parse(HeaderGet(header, ResetHeader))
            case Err(e) => Err(e)
            case Ok(reset) => Ok(RateLimits(limit, remaining, reset))
  }

  /** For an answered, non-404 probe: the result holds all three parsed
      figures exactly when all three parse, and otherwise it is the error
      of the first header, in the order Limit, Remaining, Reset, that does
      not; no figure defaults to zero. */
  lemma GetRatesOrder<F>(status: int, header: map<string, seq<string>>, parse: string -> Result<F>)
    requires status != StatusNotFound
    ensures var r := GetRates(ProbeAnswered(status, header), parse);
      var l, m, s := parse(HeaderGet(header, LimitHeader)), parse(HeaderGet(header, RemainingHeader)),
                     parse(HeaderGet(header, ResetHeader));
      && (r.Ok? <==> l.Ok? && m.Ok? && s.Ok?)
      && (r.Ok? ==> r.value == RateLimits(l.value, m.value, s.value))
      && (l.Err? ==> r == Err(l.error))
      && (l.Ok? && m.Err? ==> r == Err(m.error))
      && (l.Ok? && m.Ok? && s.Err? ==> r == Err(s.error))
  {
  }

  // ---------------------------------------------------------------------
  // gatherData
  // ---------------------------------------------------------------------

  /** What gatherData returns: the records, the rate limits and the error. */
  datatype Gathered<D, F> = Gathered(data: seq<D>, rates: Option<RateLimits<F>>, err: Option<string>)

  /** gatherData over the drained responses: the first decode error ends
      it with no data and no rates; a failed rate probe ends it with no
      data, no rates and an empty error; otherwise all records and the
      rates. */
  function GatherOutcome<D, F>(responses: seq<Response>, decodeList: seq<byte> -> Result<seq<D>>,
                               decodeOne: seq<byte> -> Result<D>, probe: Probe, parse: string -> Result<F>)
    : Gathered<D, F>
  {
    match Collect(responses, decodeList, decodeOne)
    case Err(e) => Gathered([], None, Some(e))
    case Ok(data) =>
      match GetRates(probe, parse)
      case Err(_) => Gathered([], None, Some(""))
      case Ok(rates) => Gathered(data, Some(rates), None)
  }

  /** gatherData: decode each response body, as an array or as one object,
      appending the records; return at the first decode error; then query
      the rate limits. */
  method GatherData<D, F>(responses: seq<Response>, decodeList: seq<byte> -> Result<seq<D>>,
                          decodeOne: seq<byte> -> Result<D>, probe: Probe, parse: string -> Result<F>)
    returns (data: seq<D>, rates: Option<RateLimits<F>>, err: Option<string>)
    ensures Gathered(data, rates, err) == GatherOutcome(responses, decodeList, decodeOne, probe, parse)
  {
    data := [];
    for i := 0 to |responses|
      invariant Collect(responses[..i], decodeList, decodeOne) == Ok(data)
    {
      var body := responses[i].body;
      CollectStep(responses, i, decodeList, decodeOne);
      var isArray := IsArray(body);
      if isArray {
        var ds := decodeList(body);
        if ds.Err? {
          CollectErrStays(responses, i + 1, decodeList, decodeOne);
          return [], None, Some(ds.error);
        }
        data := data + ds.value;
      } else {
        var d := decodeOne(body);
        if d.Err? {
          CollectErrStays(responses, i + 1, decodeList, decodeOne);
          return [], None, Some(d.error);
        }
        data := data + [d.value];
      }
    }
    assert responses[..|responses|] == responses;

    var r := GetRates(probe, parse);
    if r.Err? {
      return [], None, Some("");
    }
    return data, Some(r.value), None;
  }

  /** Once collecting has failed, later responses do not change the error. */
  lemma {:induction false} CollectErrStays<D>(responses: seq<Response>, i: nat, decodeList: seq<byte> -> Result<seq<D>>, decodeOne: seq<byte> -> Result<D>)
    requires i <= |responses| && Collect(responses[..i], decodeList, decodeOne).Err?
    ensures Collect(responses, decodeList, decodeOne) == Collect(responses[..i], decodeList, decodeOne)
    decreases |responses| - i
  {
    if i < |responses| {
      CollectStep(responses, i, decodeList, decodeOne);
      CollectErrStays(responses, i + 1, decodeList, decodeOne);
    } else {
      assert responses[..i] == responses;
    }
  }

  /** A decode failure ends gathering with no data, no rates and the decode
      error of the first failing body, and the rate probe's answer plays no
      part in it. */
  lemma DecodeFailureSkipsProbe<D, F>(responses: seq<Response>, decodeList: seq<byte> -> Result<seq<D>>,
                                      decodeOne: seq<byte> -> Result<D>, probe1: Probe, probe2: Probe,
                                      parse: string -> Result<F>)
    requires FirstFailure(responses, decodeList, decodeOne) < |responses|
    ensures var k := FirstFailure(responses, decodeList, decodeOne);
      && GatherOutcome(responses, decodeList, decodeOne, probe1, parse)
         == Gathered([], None, Some(Contribution(responses[k].body, decodeList, decodeOne).error))
      && GatherOutcome(responses, decodeList, decodeOne, probe1, parse)
         == GatherOutcome(responses, decodeList, decodeOne, probe2, parse)
  {
    CollectMeaning(responses, decodeList, decodeOne);
  }

  /** When every body decodes: a failed rate query discards all records and
      reports an empty error; a successful one returns the records of all
      responses in order and the rates. */
  lemma GatherAfterDecoding<D, F>(responses: seq<Response>, decodeList: seq<byte> -> Result<seq<D>>,
                                  decodeOne: seq<byte> -> Result<D>, probe: Probe, parse: string -> Result<F>)
    requires FirstFailure(responses, decodeList, decodeOne) == |responses|
    ensures var g := GatherOutcome(responses, decodeList, decodeOne, probe, parse);
      && (GetRates(probe, parse).Err? ==> g == Gathered([], None, Some("")))
      && (GetRates(probe, parse).Ok? ==>
            g == Gathered(Flatten(Contributions(responses, decodeList, decodeOne)), Some(GetRates(probe, parse).value), None))
  {
    CollectMeaning(responses, decodeList, decodeOne);
  }

  // ---------------------------------------------------------------------
  // gatherData over the drain loop as written
  // ---------------------------------------------------------------------

  /** gatherData fed by asyncHTTPGets as written: nothing at all when the
      drain loop blocks, otherwise the gathering of the messages drained
      before the first error. */
  function GatherAsWritten<D, F>(arrivals: seq<Response>, decodeList: seq<byte> -> Result<seq<D>>,
                                 decodeOne: seq<byte> -> Result<D>, probe: Probe, parse: string -> Result<F>)
    : Option<Gathered<D, F>>
  {
    match DrainOutcome(arrivals)
    case Blocked => None
    case Returned(drained) => Some(GatherOutcome(drained, decodeList, decodeOne, probe, parse))
  }

  /** As written, gatherData returns only when some fetch failed, and then
      it reports the records of the messages that arrived before the failed
      one with no error at all, provided those decode and the rate query
      succeeds: the failed target and every message after it are silently
      missing. */
  lemma GatherAsWrittenDropsFailure<D, F>(arrivals: seq<Response>, decodeList: seq<byte> -> Result<seq<D>>,
                                          decodeOne: seq<byte> -> Result<D>, probe: Probe, parse: string -> Result<F>)
    ensures GatherAsWritten(arrivals, decodeList, decodeOne, probe, parse).None?
            <==> forall k :: 0 <= k < |arrivals| ==> arrivals[k].err.None?
    ensures var drained := arrivals[..FirstError(arrivals)];
      FirstError(arrivals) < |arrivals| && FirstFailure(drained, decodeList, decodeOne) == |drained|
      && GetRates(probe, parse).Ok? ==>
        GatherAsWritten(arrivals, decodeList, decodeOne, probe, parse)
        == Some(Gathered(Flatten(Contributions(drained, decodeList, decodeOne)), Some(GetRates(probe, parse).value), None))
  {
    var drained := arrivals[..FirstError(arrivals)];
    if FirstError(arrivals) < |arrivals| {
      CollectMeaning(drained, decodeList, decodeOne);
    }
  }
}
