/**
 * `sendMessageToTab` (background.js): deliver one message to the page script, trying up
 * to `maxRetries` times. Each attempt looks the tab up (`isTabValid`), probes the page
 * with an injected script, then sends; a failed attempt waits one second before the next
 * one, except that a failed probe or send on the last attempt rethrows at once.
 */
module Relay {
  import opened Common

  /** How a browser call settles: resolved, or rejected with an error message. */
  datatype Outcome = Done | Threw(message: string)

  /** What the browser does during one attempt: the status of the tab `chrome.tabs.get`
      returns (`None` when the lookup throws), then the outcomes of the probe
      `chrome.scripting.executeScript` and of `chrome.tabs.sendMessage`. */
  datatype Attempt = Attempt(tab: Option<string>, probe: Outcome, send: Outcome)

  /** The error thrown once every attempt has found the tab unusable. */
  const Unreachable: string := "无法连接到目标页面"

  /** The number of attempts every caller uses. */
  const DefaultMaxRetries: int := 3

  /** `isTabValid`: the lookup succeeded and the tab has finished loading. */
  predicate TabValid(a: Attempt) {
    a.tab == Some("complete")
  }

  /** An attempt that delivers the message. */
  predicate Succeeds(a: Attempt) {
    TabValid(a) && a.probe.Done? && a.send.Done?
  }

  /** `sendMessageToTab(tabId, message, maxRetries)`. `attempts(i)` is what the browser
      does in attempt `i`; `waits` counts the one-second pauses. */
  method SendMessageToTab(attempts: nat -> Attempt, maxRetries: int) returns (result: Outcome, waits: nat)
    ensures result.Done? <==> exists i :: 0 <= i < maxRetries && Succeeds(attempts(i))
    ensures result.Done? ==>
      && waits < maxRetries && Succeeds(attempts(waits))
      && forall j :: 0 <= j < waits ==> !Succeeds(attempts(j))
    ensures maxRetries <= 0 ==> result == Threw(Unreachable) && waits == 0
    ensures result.Threw? && maxRetries > 0 ==>
      var last := attempts(maxRetries - 1);
      if !TabValid(last) then result == Threw(Unreachable) && waits == maxRetries
      else if last.probe.Threw? then result == last.probe && waits == maxRetries - 1
      else result == last.send && waits == maxRetries - 1
  {
    waits := 0;
    var i := 0;
    while i < maxRetries
      invariant if maxRetries > 0 then 0 <= i <= maxRetries else i == 0
      invariant waits == i
      invariant forall j :: 0 <= j < i ==> !Succeeds(attempts(j))
      invariant 0 < i ==> (TabValid(attempts(i - 1)) ==> i < maxRetries)
    {
      var attempt := attempts(i);
      if TabValid(attempt) {
        if attempt.probe.Threw? {
          if i == maxRetries - 1 {
            return attempt.probe, waits;
          }
          waits := waits + 1;
          i := i + 1;
          continue;
        }
        if attempt.send.Threw? {
          if i == maxRetries - 1 {
            return attempt.send, waits;
          }
          waits := waits + 1;
          i := i + 1;
          continue;
        }
        return Done, waits;
      }
      waits := waits + 1;
      i := i + 1;
    }
    result := Threw(Unreachable);
  }
}
