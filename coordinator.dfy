/**
 * `translateText` (background.js): check the settings, announce the translation to the
 * page, translate every segment with one HEAD probe and one chat-completions POST, and
 * end with one `showTranslation` or, when anything threw, one `showError`. Every page
 * message goes through `sendMessageToTab`.
 */
module Coordinator {
  import opened Common
  import opened Strings
  import opened Segmenter
  import opened Api
  import opened Relay
  import opened Messages

  /** The three keys read from `chrome.storage.sync`; `None` is a missing key. The
      `model` key is not among them. */
  datatype Settings = Settings(apiUrl: Option<string>, apiKey: Option<string>, targetLang: Option<string>)

  /** `settings.apiUrl` and `settings.apiKey` are both present and non-empty. */
  predicate Configured(s: Settings) {
    s.apiUrl.Some? && s.apiUrl.value != "" && s.apiKey.Some? && s.apiKey.value != ""
  }

  /** How the POST settles: a response, or the message `fetch` rejects with. */
  datatype Post = Responded(response: HttpResponse) | Unsent(reason: string)

  /** What the network does for one segment: whether the HEAD probe reached the server
      (any status counts), and how the POST settled. */
  datatype Exchange = Exchange(headReached: bool, post: Post)

  /** The parts of a chat-completions request the model keeps: the URL, the user message
      and the model name. */
  datatype ChatRequest = ChatRequest(url: string, userContent: string, model: string)

  /** One page message handed to `sendMessageToTab`, and how that call settled. */
  datatype Delivery = Delivery(message: PageMessage, outcome: Outcome)

  /** The model named in every request, since `settings.model` is never loaded. */
  const DefaultModel: string := "featherless/qwerky-72b:free"

  const ChatPath: string := "/chat/completions"

  /** One iteration of the segment loop. */
  function TranslateOne(exchange: Exchange, parse: string -> Option<Json>): (r: Result<string, Failure>)
    ensures !exchange.headReached ==> r == Err(ApiUnreachable)
    ensures exchange.headReached && exchange.post.Unsent? ==> r == Err(Network(exchange.post.reason))
  {
    if !exchange.headReached then Err(ApiUnreachable)
    else match exchange.post
      case Unsent(reason) => Err(Network(reason))
      case Responded(response) => CheckResponse(response, parse)
  }

  /** What each segment comes to, by index. */
  function Outcomes(exchanges: nat -> Exchange, parse: string -> Option<Json>): nat -> Result<string, Failure>
  {
    (k: nat) => TranslateOne(exchanges(k), parse)
  }

  /** The translations of the first `n` segments, or the first failure among them. */
  function Translations(outcomes: nat -> Result<string, Failure>, n: nat): (r: Result<seq<string>, Failure>)
    ensures r.Ok? ==> |r.value| == n
  {
    if n == 0 then Ok([])
    else match Translations(outcomes, n - 1)
      case Err(e) => Err(e)
      case Ok(ts) =>
        match outcomes(n - 1)
        case Err(e) => Err(e)
        case Ok(t) => Ok(ts + [t])
  }

  /** A successful run holds each segment's translation, in order. */
  lemma {:induction false} TranslationsInOrder(outcomes: nat -> Result<string, Failure>, n: nat, k: nat)
    requires k < n && Translations(outcomes, n).Ok?
    ensures outcomes(k) == Ok(Translations(outcomes, n).value[k])
  {
    var r := Translations(outcomes, n - 1);
    assert r.Ok? && outcomes(n - 1).Ok? && Translations(outcomes, n).value == r.value + [outcomes(n - 1).value];
    if k < n - 1 {
      TranslationsInOrder(outcomes, n - 1, k);
    }
  }

  /** A failed run fails with the error of its first failing segment: every segment before
      that one was translated. */
  lemma {:induction false} TranslationsFailure(outcomes: nat -> Result<string, Failure>, n: nat)
    requires Translations(outcomes, n).Err?
    ensures exists k :: 0 <= k < n && outcomes(k) == Err(Translations(outcomes, n).error)
                        && forall j :: 0 <= j < k ==> outcomes(j).Ok?
  {
    var r := Translations(outcomes, n - 1);
    if r.Err? {
      TranslationsFailure(outcomes, n - 1);
      assert Translations(outcomes, n) == r;
    } else {
      forall j | 0 <= j < n - 1 ensures outcomes(j).Ok? {
        TranslationsInOrder(outcomes, n - 1, j);
      }
      assert outcomes(n - 1) == Err(Translations(outcomes, n).error);
    }
  }

  /** The first failure wins: once a prefix of the segments fails, so does every longer
      run, with the same error. */
  lemma {:induction false} FirstFailureWins(outcomes: nat -> Result<string, Failure>, k: nat, n: nat)
    requires k <= n && Translations(outcomes, k).Err?
    ensures Translations(outcomes, n) == Translations(outcomes, k)
    decreases n - k
  {
    if k < n {
      FirstFailureWins(outcomes, k, n - 1);
    }
  }

  /** `n` copies of one request, one per segment sent. */
  function Copies(request: ChatRequest, n: nat): (r: seq<ChatRequest>)
    ensures |r| == n && forall i :: 0 <= i < n ==> r[i] == request
  {
    if n == 0 then [] else Copies(request, n - 1) + [request]
  }

  /** How many segments `translateText` works through. */
  function SegmentCount(text: string, isFullPage: bool): (n: nat)
    ensures !isFullPage ==> n == 1
    ensures isFullPage && text == "" ==> n == 0
  {
    if isFullPage then
      (SegmentsOfEmpty(DefaultMaxLength);
      |TrimAll(Buffers(text, DefaultMaxLength))|)
    else 1
  }

  /** What the page is to be shown once the translation has been announced: the joined
      translations, the single translation of a selection, or the first failure. */
  function Planned(text: string, isFullPage: bool, exchanges: nat -> Exchange, parse: string -> Option<Json>): (r: Result<string, Failure>)
    ensures r.Err? <==> Translations(Outcomes(exchanges, parse), SegmentCount(text, isFullPage)).Err?
    ensures isFullPage && text == "" ==> r == Ok("")
    ensures !isFullPage ==> r == TranslateOne(exchanges(0), parse)
  {
    match Translations(Outcomes(exchanges, parse), SegmentCount(text, isFullPage))
    case Err(f) => Err(f)
    case Ok(ts) => Ok(if isFullPage then Join(ts, '\n') else ts[0])
  }

  /** One iteration of the segment loop: the HEAD probe, and the POST when the probe
      reached the server. A failure ends the run; a translation extends it. */
  method TranslateSegment(exchanges: nat -> Exchange, parse: string -> Option<Json>, k: nat,
                          translations: seq<string>, request: ChatRequest, requests: seq<ChatRequest>)
    returns (outcome: Result<string, Failure>, sent: seq<ChatRequest>)
    requires Translations(Outcomes(exchanges, parse), k) == Ok(translations)
    requires requests == Copies(request, k)
    ensures outcome.Err? ==> Translations(Outcomes(exchanges, parse), k + 1) == Err(outcome.error)
    ensures outcome.Ok? ==> Translations(Outcomes(exchanges, parse), k + 1) == Ok(translations + [outcome.value])
    ensures sent == Copies(request, |sent|) && k <= |sent| <= k + 1
    ensures outcome.Ok? ==> |sent| == k + 1
  {
    sent := requests;
    var exchange := exchanges(k);
    if exchange.headReached {
      sent := sent + [request];
    }
    outcome := TranslateOne(exchange, parse);
  }

  /** The segment loop of `translateText`: one HEAD probe and, when it reaches the server,
      one POST per segment, stopping at the first error. The request carries `text`
      whatever the segment is. */
  method TranslateSegments(segments: seq<string>, text: string, apiUrl: string,
                           exchanges: nat -> Exchange, parse: string -> Option<Json>)
    returns (result: Result<seq<string>, Failure>, requests: seq<ChatRequest>)
    ensures result == Translations(Outcomes(exchanges, parse), |segments|)
    ensures requests == Copies(ChatRequest(apiUrl + ChatPath, text, DefaultModel), |requests|)
    ensures |requests| <= |segments|
    ensures result.Ok? ==> |requests| == |segments|
  {
    requests := [];
    var translations: seq<string> := [];
    var request := ChatRequest(apiUrl + ChatPath, text, DefaultModel);
    var k := 0;
    while k < |segments|
      invariant 0 <= k <= |segments|
      invariant requests == Copies(request, k)
      invariant Translations(Outcomes(exchanges, parse), k) == Ok(translations)
    {
      var outcome;
      outcome, requests := TranslateSegment(exchanges, parse, k, translations, request, requests);
      if outcome.Err? {
        FirstFailureWins(Outcomes(exchanges, parse), k + 1, |segments|);
        return Err(outcome.error), requests;
      }
      translations := translations + [outcome.value];
      k := k + 1;
    }
    result := Ok(translations);
  }

  /** Hands `message` to `sendMessageToTab` with the default number of attempts. */
  method Deliver(message: PageMessage, attempts: nat -> Attempt) returns (d: Delivery)
    ensures d.message == message
    ensures d.outcome.Done? <==> exists i :: 0 <= i < DefaultMaxRetries && Succeeds(attempts(i))
  {
    var outcome, _ := SendMessageToTab(attempts, DefaultMaxRetries);
    d := Delivery(message, outcome);
  }

  /** The segments `translateText` works through: the split text in full-page mode, the
      whole selection otherwise. */
  method Segments(text: string, isFullPage: bool) returns (segments: seq<string>)
    ensures |segments| == SegmentCount(text, isFullPage)
    ensures !isFullPage ==> segments == [text]
  {
    if isFullPage {
      segments := SplitTextIntoSegments(text, DefaultMaxLength);
    } else {
      segments := [text];
    }
  }

  /** What `translateText` does once the page has taken the announcement: translate the
      segments, then send the result, or the error that stopped it. */
  method TranslateAndReport(text: string, isFullPage: bool, segments: seq<string>, apiUrl: string,
                            exchanges: nat -> Exchange, parse: string -> Option<Json>,
                            resultAttempts: nat -> Attempt, errorAttempts: nat -> Attempt)
    returns (tail: seq<Delivery>, requests: seq<ChatRequest>)
    requires |segments| == SegmentCount(text, isFullPage)
    ensures 1 <= |tail| <= 2 && IsTerminal(tail[0].message)
    ensures match Planned(text, isFullPage, exchanges, parse)
      case Ok(t) => tail[0].message == ShowTranslation(t, isFullPage)
      case Err(f) => tail == [Delivery(ShowError(Message(f), isFullPage), tail[0].outcome)]
    ensures |tail| == 2 ==> tail[0].message.ShowTranslation? && tail[0].outcome.Threw?
                            && tail[1].message == ShowError(tail[0].outcome.message, isFullPage)
    ensures tail[0].outcome.Done? ==> |tail| == 1
    ensures requests == Copies(ChatRequest(apiUrl + ChatPath, text, DefaultModel), |requests|)
    ensures |requests| <= |segments|
    ensures Planned(text, isFullPage, exchanges, parse).Ok? ==> |requests| == |segments|
  {
    var translated;
    translated, requests := TranslateSegments(segments, text, apiUrl, exchanges, parse);
    match translated {
      case Err(f) =>
        var reported := Deliver(ShowError(Message(f), isFullPage), errorAttempts);
        tail := [reported];
      case Ok(translations) =>
        var shown := Deliver(ShowTranslation(if isFullPage then Join(translations, '\n') else translations[0], isFullPage),
                             resultAttempts);
        tail := [shown];
        if shown.outcome.Threw? {
          var reported := Deliver(ShowError(shown.outcome.message, isFullPage), errorAttempts);
          tail := tail + [reported];
        }
    }
  }

  /** The messages after a delivered announcement are terminal, and each but the last
      was followed only because its delivery threw. */
  lemma AnnouncedLog(announced: Delivery, tail: seq<Delivery>, isFullPage: bool)
    requires announced.message == TranslationStart(isFullPage)
    requires 1 <= |tail| <= 2 && IsTerminal(tail[0].message)
    requires |tail| == 2 ==> tail[0].message.ShowTranslation? && tail[0].outcome.Threw?
                             && tail[1].message == ShowError(tail[0].outcome.message, isFullPage)
    ensures var log := [announced] + tail;
      && IsTerminal(log[|log| - 1].message)
      && (forall i :: 1 <= i < |log| ==> IsTerminal(log[i].message))
      && (forall i :: 0 <= i < |log| - 1 && IsTerminal(log[i].message) ==> log[i].outcome.Threw?)
  {
    var log := [announced] + tail;
    assert log[1] == tail[0];
    assert |log| == 3 ==> log[2] == tail[1];
  }

  /** `translateText(text, tabId, isFullPage)`. The browser and the network are the
      oracles: `exchanges(k)` for segment `k`, `parse` for `JSON.parse`, and one attempt
      oracle for each of the three messages `translateText` can send. */
  method TranslateText(text: string, isFullPage: bool, settings: Settings,
                       exchanges: nat -> Exchange, parse: string -> Option<Json>,
                       startAttempts: nat -> Attempt, resultAttempts: nat -> Attempt,
                       errorAttempts: nat -> Attempt)
    returns (log: seq<Delivery>, requests: seq<ChatRequest>)
    ensures 1 <= |log| <= 3 && IsTerminal(log[|log| - 1].message)
    // Settings missing: one error message and nothing else.
    ensures !Configured(settings) ==>
      log == [Delivery(ShowError(Message(NotConfigured), isFullPage), log[0].outcome)] && requests == []
    // Otherwise the announcement comes first, and only there.
    ensures Configured(settings) ==> log[0].message == TranslationStart(isFullPage)
    ensures forall i :: 1 <= i < |log| ==> IsTerminal(log[i].message)
    // A terminal message is followed by another only when its delivery failed.
    ensures forall i :: 0 <= i < |log| - 1 && IsTerminal(log[i].message) ==> log[i].outcome.Threw?
    // An announcement that could not be delivered is reported as the error.
    ensures Configured(settings) && log[0].outcome.Threw? ==>
      |log| == 2 && log[1].message == ShowError(log[0].outcome.message, isFullPage) && requests == []
    // Once announced, the page is sent the planned translation or the first failure.
    ensures Configured(settings) && log[0].outcome.Done? ==>
      |log| >= 2 &&
      match Planned(text, isFullPage, exchanges, parse)
      case Ok(t) => log[1].message == ShowTranslation(t, isFullPage)
      case Err(f) => log[1].message == ShowError(Message(f), isFullPage) && |log| == 2
    // A translation that could not be delivered is followed by its delivery error.
    ensures |log| == 3 ==> log[1].message.ShowTranslation? && log[1].outcome.Threw?
                           && log[2].message == ShowError(log[1].outcome.message, isFullPage)
    // Every request asks for the whole text, with the default model.
    ensures Configured(settings) ==>
      requests == Copies(ChatRequest(settings.apiUrl.value + ChatPath, text, DefaultModel), |requests|)
    ensures |requests| <= SegmentCount(text, isFullPage)
    ensures Configured(settings) && log[0].outcome.Done? && Planned(text, isFullPage, exchanges, parse).Ok? ==>
      |requests| == SegmentCount(text, isFullPage)
  {
    if !Configured(settings) {
      var reported := Deliver(ShowError(Message(NotConfigured), isFullPage), errorAttempts);
      return [reported], [];
    }
    var segments := Segments(text, isFullPage);
    var announced := Deliver(TranslationStart(isFullPage), startAttempts);
    if announced.outcome.Threw? {
      var reported := Deliver(ShowError(announced.outcome.message, isFullPage), errorAttempts);
      return [announced, reported], [];
    }
    var tail;
    tail, requests := TranslateAndReport(text, isFullPage, segments, settings.apiUrl.value,
                                         exchanges, parse, resultAttempts, errorAttempts);
    log := [announced] + tail;
    AnnouncedLog(announced, tail, isFullPage);
  }
}
