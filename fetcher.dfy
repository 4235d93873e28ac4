/**
 * The retry policy shared by `robust_get` (src/boe_sumario_text_json.py:83-101) and
 * `robust_get_sumario_xml` (lines 276-294). The network is a script: the outcome of the
 * i-th request to a URL is `OutcomeAt(script, i)`. Sleeps are not performed; the exponent
 * `i + 1` of each `backoff ** (i + 1)` sleep is recorded instead.
 */
module Fetcher {
  import opened Wrappers
  import opened PyStr
  import opened Seqs

  /** What one `requests.get` does: a reply with a status code and a body, or an exception. */
  datatype Outcome = Reply(status: int, body: string) | Raised

  /** A request past the end of the script fails as a transport error. */
  function OutcomeAt(script: seq<Outcome>, i: nat): Outcome {
    if i < |script| then script[i] else Raised
  }

  /** `robust_get` accepts a 200 whose `content` is non-empty; `robust_get_sumario_xml` one
      whose `text.strip()` is non-empty. */
  datatype BodyCheck = NonEmptyContent | NonBlankText

  predicate Acceptable(check: BodyCheck, body: string) {
    match check
    case NonEmptyContent => body != []
    case NonBlankText => Strip(body) != []
  }

  /** How one attempt ends: the body is returned, `None` is returned at once, or the loop goes on. */
  datatype Verdict = Success(body: string) | Permanent | Transient

  function Classify(check: BodyCheck, o: Outcome): (v: Verdict)
    ensures v.Success? <==> o.Reply? && o.status == 200 && Acceptable(check, o.body)
    ensures v.Success? ==> v.body == o.body
    ensures v == Permanent <==> o.Reply? && (o.status == 400 || o.status == 404)
  {
    match o
    case Raised => Transient
    case Reply(status, body) =>
      if status == 200 && Acceptable(check, body) then Success(body)
      else if status == 400 || status == 404 then Permanent
      else Transient
  }

  /** A whole call: the value returned, the number of requests issued and the backoff exponents slept. */
  datatype Run = Run(result: Option<string>, requests: nat, exponents: seq<nat>)

  /** The attempts `i`, `i + 1`, ... of `for i in range(maxTries)`. */
  function RetryFrom(script: seq<Outcome>, check: BodyCheck, maxTries: int, i: nat): Run
    decreases if i < maxTries then maxTries - i else 0
  {
    if maxTries <= i then Run(None, 0, [])
    else
      match Classify(check, OutcomeAt(script, i))
      case Success(body) => Run(Some(body), 1, [])
      case Permanent => Run(None, 1, [])
      case Transient =>
        var rest := RetryFrom(script, check, maxTries, i + 1);
        Run(rest.result, rest.requests + 1, [i + 1] + rest.exponents)
  }

  function Retry(script: seq<Outcome>, check: BodyCheck, maxTries: int): Run {
    RetryFrom(script, check, maxTries, 0)
  }

  /** Attempts `lo <= j < hi` all asked for a retry. */
  predicate AllTransient(script: seq<Outcome>, check: BodyCheck, lo: nat, hi: int) {
    forall j :: lo <= j < hi ==> Classify(check, OutcomeAt(script, j)) == Transient
  }

  /** From attempt `i`: every request but the last asked for a retry; a returned body is the
      accepted body of the last request; `None` after fewer than `maxTries - i` requests means the
      last reply was a 400 or 404; every retried request is followed by a sleep whose exponents
      count up from `i + 1`, the one after a last failed attempt included. */
  lemma {:induction false} RetryFromSpec(script: seq<Outcome>, check: BodyCheck, maxTries: int, i: nat)
    ensures var r := RetryFrom(script, check, maxTries, i);
      && (r.requests == 0 <==> maxTries <= i)
      && (maxTries <= i ==> r == Run(None, 0, []))
      && i + r.requests <= (if maxTries < i then i else maxTries)
      && AllTransient(script, check, i, i + r.requests - 1)
      && (forall k :: 0 <= k < |r.exponents| ==> r.exponents[k] == i + k + 1)
      && (r.result.Some? ==>
            r.requests > 0 && |r.exponents| == r.requests - 1
            && Classify(check, OutcomeAt(script, i + r.requests - 1)) == Success(r.result.value))
      && (r.result.None? && r.requests > 0 ==>
            (Classify(check, OutcomeAt(script, i + r.requests - 1)) == Permanent && |r.exponents| == r.requests - 1)
            || (Classify(check, OutcomeAt(script, i + r.requests - 1)) == Transient
                && i + r.requests == maxTries && |r.exponents| == r.requests))
    decreases if i < maxTries then maxTries - i else 0
  {
    if i < maxTries && Classify(check, OutcomeAt(script, i)) == Transient {
      RetryFromSpec(script, check, maxTries, i + 1);
    }
  }

  /** The whole policy: at most `max(0, maxTries)` requests, none when `maxTries <= 0`; the value
      returned is the body of the first accepted reply, and nothing comes back after a 400/404 or
      once the tries run out. */
  lemma RetrySpec(script: seq<Outcome>, check: BodyCheck, maxTries: int)
    ensures var r := Retry(script, check, maxTries);
      && r.requests <= (if maxTries < 0 then 0 else maxTries)
      && (maxTries <= 0 ==> r == Run(None, 0, []))
      && (forall k :: 0 <= k < |r.exponents| ==> r.exponents[k] == k + 1)
      && (forall body :: r.result == Some(body) <==> exists k :: AcceptedAt(script, check, maxTries, k, body))
  {
    var r := Retry(script, check, maxTries);
    RetryFromSpec(script, check, maxTries, 0);
    forall body, k | AcceptedAt(script, check, maxTries, k, body) ensures r.result == Some(body) {
      // Every attempt before k asks for a retry, so the loop reaches attempt k and returns there.
      assert Classify(check, OutcomeAt(script, r.requests - 1)) != Transient || r.requests - 1 >= k;
      assert r.requests - 1 == k;
    }
    if r.result.Some? {
      assert AcceptedAt(script, check, maxTries, r.requests - 1, r.result.value);
    }
  }

  /** Attempt `k` is reached (every earlier one asked for a retry) and accepts `body`. */
  predicate AcceptedAt(script: seq<Outcome>, check: BodyCheck, maxTries: int, k: int, body: string) {
    0 <= k < maxTries && AllTransient(script, check, 0, k) && Classify(check, OutcomeAt(script, k)) == Success(body)
  }

  /** The loop of `robust_get`/`robust_get_sumario_xml`, against the script. */
  method RobustGet(script: seq<Outcome>, check: BodyCheck, maxTries: int)
    returns (result: Option<string>, requests: nat, exponents: seq<nat>)
    ensures Run(result, requests, exponents) == Retry(script, check, maxTries)
  {
    exponents := [];
    var i: nat := 0;
    while i < maxTries
      invariant |exponents| == i
      invariant forall k :: 0 <= k < i ==> exponents[k] == k + 1
      invariant var rest := RetryFrom(script, check, maxTries, i);
        Retry(script, check, maxTries) == Run(rest.result, i + rest.requests, exponents + rest.exponents)
      decreases maxTries - i
    {
      var verdict := Classify(check, OutcomeAt(script, i));
      match verdict {
        case Success(body) =>
          assert exponents + [] == exponents;
          return Some(body), i + 1, exponents;
        case Permanent =>
          assert exponents + [] == exponents;
          return None, i + 1, exponents;
        case Transient =>
          TransientStep(script, check, maxTries, i, exponents);
          exponents := exponents + [i + 1];
          i := i + 1;
      }
    }
    assert exponents + [] == exponents;
    return None, i, exponents;
  }

  /** A retried attempt `i` adds one request and the exponent `i + 1` to what attempt `i + 1` does. */
  lemma TransientStep(script: seq<Outcome>, check: BodyCheck, maxTries: int, i: nat, done: seq<nat>)
    requires i < maxTries && Classify(check, OutcomeAt(script, i)) == Transient
    ensures var rest, next := RetryFrom(script, check, maxTries, i), RetryFrom(script, check, maxTries, i + 1);
      Run(rest.result, i + rest.requests, done + rest.exponents)
        == Run(next.result, i + 1 + next.requests, (done + [i + 1]) + next.exponents)
  {
    AppendAssoc(done, [i + 1], RetryFrom(script, check, maxTries, i + 1).exponents);
  }

  /** The default of both functions' `max_tries`. */
  const DefaultTries := 3

  /** `robust_get(url, headers)` with the default three tries. */
  method RobustGetContent(script: seq<Outcome>) returns (result: Option<string>, run: Run)
    ensures run == Retry(script, NonEmptyContent, DefaultTries) && result == run.result
    ensures result.Some? ==> result.value != []
  {
    var requests, exponents;
    result, requests, exponents := RobustGet(script, NonEmptyContent, DefaultTries);
    run := Run(result, requests, exponents);
    RetrySpec(script, NonEmptyContent, DefaultTries);
  }

  /** `robust_get_sumario_xml(url)` with the default three tries; a returned text is never blank. */
  method RobustGetSumarioXml(script: seq<Outcome>) returns (result: Option<string>, run: Run)
    ensures run == Retry(script, NonBlankText, DefaultTries) && result == run.result
    ensures result.Some? ==> Strip(result.value) != []
  {
    var requests, exponents;
    result, requests, exponents := RobustGet(script, NonBlankText, DefaultTries);
    run := Run(result, requests, exponents);
    RetrySpec(script, NonBlankText, DefaultTries);
  }

  /** Two server errors, then the document: three requests, sleeps `1.6 ** 1` and `1.6 ** 2`. */
  lemma RecoversOnThirdTry()
    ensures Retry([Reply(500, ""), Raised, Reply(200, "<a/>")], NonEmptyContent, 3) == Run(Some("<a/>"), 3, [1, 2])
  {
  }

  /** A 404 stops at once, without sleeping. */
  lemma NotFoundStops()
    ensures Retry([Reply(404, "nada"), Reply(200, "<a/>")], NonEmptyContent, 3) == Run(None, 1, [])
  {
  }

  /** Three failures: three requests and three sleeps, the last one after the last attempt. */
  lemma GivesUpAfterThree()
    ensures Retry([Reply(503, ""), Reply(500, ""), Reply(502, ""), Reply(200, "<a/>")], NonEmptyContent, 3)
         == Run(None, 3, [1, 2, 3])
  {
  }

  /** A first attempt that asks for a retry and a second one that succeeds. */
  lemma SecondTrySucceeds(script: seq<Outcome>, check: BodyCheck, body: string)
    requires |script| == 2 && Classify(check, script[0]) == Transient && Classify(check, script[1]) == Success(body)
    ensures Retry(script, check, 3) == Run(Some(body), 2, [1])
  {
    assert RetryFrom(script, check, 3, 1) == Run(Some(body), 1, []);
  }

  /** A 200 whose text is all whitespace is retried by the catalog fetch ... */
  lemma BlankCatalogIsRetried(blank: string, doc: string)
    requires blank != [] && Strip(blank) == [] && Strip(doc) != []
    ensures Retry([Reply(200, blank), Reply(200, doc)], NonBlankText, 3) == Run(Some(doc), 2, [1])
  {
    var script := [Reply(200, blank), Reply(200, doc)];
    assert Classify(NonBlankText, script[0]) == Transient;
    assert Classify(NonBlankText, script[1]) == Success(doc);
    SecondTrySucceeds(script, NonBlankText, doc);
  }

  /** ... but accepted by `robust_get`, which only asks for a non-empty body. */
  lemma BlankContentIsAccepted(blank: string)
    requires blank != []
    ensures Retry([Reply(200, blank)], NonEmptyContent, 3) == Run(Some(blank), 1, [])
  {
  }
}
