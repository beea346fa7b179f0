# browser-translator, modelled in Dafny

This project models the core of the browser extension `browser-translator`. Its two
scripts are:

- the **background script** (`background.js`). It splits a page's text into segments
  (`splitTextIntoSegments`) and asks a chat-completions API for a translation of each one.
  It checks every response against the translation envelope
  `{"original": …, "translation": …}`. `translateText` relays its messages to the page
  through `sendMessageToTab`, which tries up to three times. The `getPageContent`
  request of the context menu goes out once, without retries. Each translation ends with
  one `showTranslation` or one `showError`. When the delivery of `showTranslation` throws,
  a `showError` carrying that delivery error follows it.
- the **page script** (`content.js`). It collects the page's text (`getPageContent`) and
  shows loading placeholders (`showLoading`). It writes the translation after each text
  node of the content region in full-page mode, or in place of the loading element in
  selection mode (`showTranslation`). A message listener dispatches on the `action`.

Modules, one per concern:

| file | module | what it holds |
|---|---|---|
| `common.dfy` | `Common` | `Option`, `Result` and small sequence lemmas |
| `strings.dfy` | `Strings` | ECMAScript whitespace, `trim`, `split('\n')`, `join('\n')`, decimal numerals |
| `segmenter.dfy` | `Segmenter` | the sentence split `/(?<=[.!?。！？]\s)/g` and the greedy packing loop |
| `api.dfy` | `Api` | parsed JSON values, the response checks and the envelope checks, the error messages |
| `relay.dfy` | `Relay` | `sendMessageToTab` over an oracle of per-attempt browser outcomes |
| `messages.dfy` | `Messages` | the page messages |
| `coordinator.dfy` | `Coordinator` | `translateText`: settings, segment loop, requests sent, message log |
| `dom.dfy` | `Dom` | text-node records, the walker filters, the removal of earlier results, the rendering function |
| `content.dfy` | `Content` | the page as a class whose `nodes` field the page script updates in place |

How the model is built:

- **The page.** The document is a sequence of text-node records in document order. Each
  record holds the node's text and its parent element's tag, classes and id, and says
  whether the node lies in the content region (`main`/`article`, else `body`).
- **Inserted elements.** Each element the extension inserts is a `div` with one text node,
  so inserting it adds one record.
- **The live walker.** A `TreeWalker` is the index of its current node in the live
  sequence, and `nextNode()` is `Dom.NextVisit`.
- **Proved against a specification.** Every imperative operation of the source is a method
  proved against a function of the old state:
  - `Segmenter.SplitTextIntoSegments` against `TrimAll(Buffers(text, maxLength))`;
  - `Content.Page.ShowTranslationFullPage` against `Dom.Render(Purge(…), Split(text, '\n'))`;
  - `Content.Page.ShowLoadingFullPage` against `Content.Placeholders`;
  - `Content.Page.GetPageContent` against `Join(PageTexts(nodes), '\n')`.

  Lemmas then state what those functions promise.

- **Foreign calls as inputs.** `chrome.storage` is a `Settings` value. `fetch` and the HEAD
  probe are an oracle `exchanges: nat -> Exchange`, one per segment. `JSON.parse` and
  `response.json()` are a function `parse` whose `None` is a throw. `chrome.tabs.get`,
  `chrome.scripting.executeScript` and `chrome.tabs.sendMessage` are an oracle
  `attempts: nat -> Attempt`, one per retry. The user's selection is a `Boundary`.
- **Waits.** The one-second waits are counted, not timed.

The model follows the code, including these behaviours:

- Every chat-completions request carries the whole `text` as the user message, not the
  segment being translated (background.js:157). `Coordinator.TranslateText` states this:
  each request is a copy of the same request, with one per segment sent.
- `settings.model` is never loaded (background.js:75), so every request names the default
  model `featherless/qwerky-72b:free` (background.js:160).
- The three walkers do not share one filter. The `showLoading` filter does not reject text
  inside a `translation-result` element (content.js:243-253).
- Full-page `showTranslation` does not align the lines one to one with the eligible nodes.
  The node fetched while a batch of ten is full is consumed without a result, so walker
  ordinals 10, 21, 32, … get nothing. A batch that starts with lines left can read past the
  last line and leave empty result elements (content.js:183-202).
- Full-page `showLoading` does not terminate once the region has an eligible node. Its
  walker accepts the text of the placeholder it has just inserted, and it inserts another
  placeholder after it, without end (content.js:284-289). The model runs the loop with a
  `fuel` bound, proves that the loop is still running when the fuel is spent, and marks
  the page script as `blocked`: it handles no further message.
- `sendMessageToTab` does not always wait between attempts. A probe or send failure on the
  last attempt is rethrown at once. When the tab is never valid, it waits after every
  attempt, including the last, before throwing (background.js:42-69).

## Model

| member | source | states |
|---|---|---|
| `Strings.Trim` | background.js:250 | `trim` is empty exactly when the text is all ECMAScript whitespace; otherwise it starts and ends with a non-whitespace unit; it is the factor that follows the leading whitespace, and only whitespace follows it |
| `Strings.Split` | content.js:169 | `split('\n')` has at least one piece and no piece contains the separator |
| `Strings.JoinSplit` | content.js:169 | joining the pieces of a split with the separator gives back the string |
| `Strings.SplitJoin` | content.js:356 | splitting a join gives back the parts when no part contains the separator |
| `Strings.SplitJoinCounterexample` | content.js:353-356 | a part that contains the separator does not come back: `["a\nb"]` becomes `["a", "b"]` |
| `Strings.Decimal` | background.js:168 | the `${status}` rendering is digits only, with no leading zero |
| `Strings.DecimalRoundTrip` | background.js:168 | reading the rendered status back as a decimal gives the status |
| `Segmenter.SplitFromShape` | background.js:243 | from any fragment start, the `@@split` loop yields a sentence split of the rest of the text: fragments that concatenate to it, non-empty, each but the last closed by a mark and one whitespace unit, none with a cut inside |
| `Segmenter.FragmentsShape` | background.js:243 | the fragments of the split concatenate to the text, are non-empty, and cut exactly after a mark followed by one whitespace unit |
| `Segmenter.FragmentsUnique` | background.js:243 | any sentence split of a non-empty text is the one the regex split produces, so the cuts are exactly the inner positions after a mark and a whitespace unit |
| `Segmenter.SplitFromUnique` | background.js:243 | the `@@split` loop, started at a fragment boundary, produces any given sentence split of the rest of the text |
| `Segmenter.PackConcat` | background.js:246-255 | the untrimmed buffers of the packing loop concatenate to the pending buffer followed by the fragments |
| `Segmenter.PackNonEmpty` | background.js:250-255 | a buffer is emitted only when it is non-empty before trimming |
| `Segmenter.PackBound` | background.js:247-251 | every buffer is at most `maxLength` long unless it is one fragment on its own |
| `Segmenter.BuffersProperties` | background.js:241-257 | the buffers concatenate to the text, none is empty, and each is at most `maxLength` long or a single oversized fragment of the split |
| `Segmenter.SegmentsOfEmpty` | background.js:241-257 | the empty text gives no segment |
| `Segmenter.SegmentsOfWhitespace` | background.js:241-257 | a non-empty all-whitespace text gives exactly one empty segment |
| `Segmenter.TrimAll` | background.js:250-255 | each segment is the `trim` of the buffer at the same position |
| `Segmenter.SplitTextIntoSegments` | background.js:241-257 | the loop emits exactly the trimmed buffers of the greedy packing of the sentence fragments, in order |
| `Api.HttpErrorMessage` | background.js:164-169 | the error message of a non-ok status is the fixed prefix, the decimal status (readable back), a space and the response body |
| `Api.CheckEnvelope` | background.js:195-221 | the envelope is accepted exactly when it is an object with keys `original` and `translation` only, both strings, and then yields `translation`; falsy and non-object values fail the object check; arrays and objects lacking a key fail the key check; a non-string field fails the type check; any extra key fails the extra-key check |
| `Api.CorrectExampleAccepted` | background.js:141-145 | the prompt's correct example is accepted and yields its translation |
| `Api.IncorrectExampleRejected` | background.js:147-151 | the prompt's incorrect example fails the required-key check |
| `Api.ExtraKeyRejected` | background.js:214-220 | a third key is refused even when both required keys hold strings |
| `Api.FirstChoice` | background.js:176-179 | `choices[0]` is taken exactly when `choices` is a non-empty array |
| `Api.MessageContent` | background.js:181 | `message?.content` is present exactly when `message` is an object with a `content` key |
| `Api.CheckResponse` | background.js:164-221 | each check, in order, gives its own error: a non-ok status fails with the status and the body; an unparsable body fails the body-JSON check; a `null` body throws the null-property TypeError for `choices`; a missing, non-array or empty `choices` fails the `choices` check; a `null` first choice throws the TypeError for `message`; a missing or falsy `content` fails the content check; a truthy non-string content or a trimmed content that does not parse fails the content-JSON check; a parsed content is decided by the envelope checks |
| `Api.CheckResponseAccepts` | background.js:164-221 | the chain of checks accepts exactly the responses with an ok status, a non-empty `choices` array, a non-empty string `content` and a trimmed content that parses to a valid envelope, and then yields that envelope's `translation` |
| `Api.NonStringContentIsNotJson` | background.js:181-193 | any truthy non-string `content` is reported as content that is not valid JSON |
| `Api.NumericContentIsNotJson` | background.js:181-193 | the response `{"choices": [{"message": {"content": 1}}]}` is reported as content that is not valid JSON |
| `Relay.SendMessageToTab` | background.js:32-69 | the message is delivered exactly when one of the first `maxRetries` attempts finds a complete tab, a working probe and a working send; it is delivered on the first such attempt, after one wait per earlier attempt; with `maxRetries <= 0` it throws the unreachable error with no wait; otherwise the failure is decided by the last attempt: an invalid tab throws the unreachable error after `maxRetries` waits, and a failed probe or send rethrows that error with no wait after it |
| `Coordinator.TranslateOne` | background.js:94-193 | a HEAD probe that does not reach the server fails with the connectivity error, and a rejected POST fails with its reason |
| `Coordinator.Translations` | background.js:91-223 | a successful run over `n` segments yields `n` translations |
| `Coordinator.TranslationsInOrder` | background.js:221-222 | a successful run holds the translation of each segment at that segment's position |
| `Coordinator.TranslationsFailure` | background.js:91-223 | a failed run fails with the error of its first failing segment, every earlier segment having been translated |
| `Coordinator.FirstFailureWins` | background.js:91-223 | once a prefix of the segments fails, every longer run fails with the same error, so the translations before it are discarded |
| `Coordinator.SegmentCount` | background.js:81 | a selection is one segment, and an empty page gives none |
| `Coordinator.Planned` | background.js:81-230 | what is shown fails exactly when a segment failed; a selection shows its one translation; an empty page shows the empty string |
| `Coordinator.TranslateSegment` | background.js:94-222 | one iteration sends the request only after the HEAD probe reached the server, ends the run with its failure, or appends its translation |
| `Coordinator.TranslateSegments` | background.js:91-223 | the segment loop yields the per-segment translations or the first failure; it sends at most one request per segment, all for the whole text, and one per segment when it succeeds |
| `Coordinator.Deliver` | background.js:42-43 | a page message goes out with the default three attempts and is delivered exactly when one of them succeeds |
| `Coordinator.Segments` | background.js:81 | the full page is split into segments; a selection is the one segment |
| `Coordinator.TranslateAndReport` | background.js:90-237 | after the announcement comes one terminal message: the joined translations or the first failure's message; a translation whose delivery throws is followed by a `showError` with that delivery error |
| `Coordinator.AnnouncedLog` | background.js:85-237 | after the announcement every message is terminal, and a terminal message is followed only when its delivery threw |
| `Coordinator.TranslateText` | background.js:72-238 | missing settings give one `showError` with the configuration message and no request; otherwise `translationStart` comes first and every later message is terminal; an undelivered announcement is reported as the error; a delivered one is followed by the planned translation or the first failure's message; every request carries the whole text and the default model |
| `Dom.AcceptsBlank` | content.js:150-158 | a node is accepted exactly when its parent is not `SCRIPT` or `STYLE`, the content filter also requires no `translation-result` class, and its text does not trim to empty |
| `Dom.Purge` | content.js:164-166 | no node left is inside a `translation-result` element of the region |
| `Dom.PurgeMembers` | content.js:164-166 | the removal keeps exactly the nodes that are not inside a `translation-result` element |
| `Dom.PurgeIdempotent` | content.js:164-166 | removing the results a second time removes nothing more |
| `Dom.FiltersAgreeAfterPurge` | content.js:243-253 | on a region cleared of results, the `showLoading` filter and the content filter accept the same nodes |
| `Dom.NextVisit` | content.js:198 | `nextNode()` returns the first later node the walker accepts, and `null` when there is none |
| `Dom.ResultFor` | content.js:183-202 | a node is given only a non-empty line of the translation |
| `Dom.BatchLine` | content.js:183-202 | node `k` of batch `b`, when the batch starts with lines left, gets line `10b + k` if that line exists and is non-empty |
| `Dom.DroppedOrdinal` | content.js:198-202 | the node fetched while a batch is full (ordinal `11b + 10`) gets nothing |
| `Dom.OrdinalExhausted` | content.js:184 | from a batch that starts with no line left, no node gets anything |
| `Dom.ResultForClosed` | content.js:179-202 | ordinal `i` gets line `i - i / 11` unless `i % 11 == 10` or its batch starts with no line left |
| `Dom.LinesInOrder` | content.js:189 | lines are consumed strictly in order: a later written node takes a later line |
| `Dom.EveryLineHasANode` | content.js:189 | no line is skipped: line `m` belongs to ordinal `m + m / 10` |
| `Dom.PlanAt` | content.js:185-190 | only nodes the walker accepts get a result |
| `Dom.PurgeWoven` | content.js:164-190 | removing the inserted results gives back the region they were inserted into |
| `Dom.RenderTwice` | content.js:141-211 | running full-page `showTranslation` twice with the same text leaves the same document as running it once |
| `Dom.ThreeParagraphs` | content.js:169-211 | three paragraphs and the text "一\n二\n三": each line lands right after its own paragraph |
| `Dom.Collected` | content.js:351-354 | one non-empty trimmed text per accepted node |
| `Dom.CollectedAt` | content.js:351-354 | the text collected at a node's walker ordinal is that node's trimmed text |
| `Dom.CollectedFrom` | content.js:351-354 | every collected text is the trimmed text of an accepted node |
| `Dom.PageContentLines` | content.js:353-356 | when no collected text holds a newline, splitting the page content at newlines gives back one line per accepted node |
| `Dom.PlanExhausted` | content.js:184 | once a batch starts with no line left, the rest of the region is left as it is |
| `Dom.PlaceholderAccepted` | content.js:243-289 | the loading placeholder is accepted by the `showLoading` walker and rejected by the content filter |
| `Dom.FindLoading` | content.js:214 | `getElementById` finds the first node whose parent has the loading id, and none when no node has it |
| `Content.InsertAt` | content.js:319-320 | the inserted nodes sit at the collapsed end of the selection, and the length grows by them, plus one when a text node is split |
| `Content.InsertAtKeeps` | content.js:319-320 | the nodes before and after the insertion point are kept in order, and a split text node's halves keep their parent and together hold its text |
| `Content.SelectionRoundTrip` | content.js:212-320 | in selection mode the loading element is found where it was inserted, the result takes its place, and a later translation finds no loading element and changes nothing |
| `Content.SplitForLoading` | content.js:303-320 | a loading element inserted inside a text node goes between its halves and is replaced there by the result |
| `Content.ReplaceLoading` | content.js:214-223 | the one loading element is found and replaced by the result, and the replacement cannot be found again |
| `Content.NoLoading` | content.js:214-215 | without a loading element, selection-mode `showTranslation` changes nothing |
| `Content.PlaceholdersRemovable` | content.js:233-235 | the placeholders of an unfinished loading loop are all removed by the next removal of results |
| `Content.PileStep` | content.js:284-289 | after each placeholder insertion, the walker's next accepted node is the placeholder just inserted |
| `Content.Page.GetPageContent` | content.js:325-357 | the content is the trimmed texts of the accepted nodes, in document order, joined by newlines |
| `Content.Page.CountParagraphs` | content.js:256-264 | `totalParagraphs` is the number of nodes the `showLoading` walker accepts |
| `Content.Page.PlaceholderLoop` | content.js:282-302 | the insertion loop piles placeholders after the first eligible node, one per round, and finishes only when there is no eligible node |
| `Content.Page.ShowLoadingFullPage` | content.js:229-302 | the region is cleared of results; the count is taken on the cleared region; the loop never finishes when the count is positive, and the page script is then stuck |
| `Content.Page.ShowLoadingSelection` | content.js:303-321 | without a selection nothing changes; otherwise every result in the document is removed and one loading element is put at the end of the selection |
| `Content.Page.ShowLoading` | content.js:228-322 | dispatches on the mode, as the two methods above state |
| `Content.Page.InsertAfter` | content.js:190 | the new node becomes the next sibling of the node at `at`, and nothing else changes |
| `Content.Page.CollectBatch` | content.js:198-202 | the batch is the next at most ten accepted nodes, in order, with nothing accepted between them; the walker either ran out of nodes or consumed an eleventh node that is dropped |
| `Content.Page.ProcessBatch` | content.js:183-195 | a batch is written only when it is non-empty and lines remain; each of its nodes then gets the next line right after it, one more step of the rendering |
| `Content.Page.ProcessNode` | content.js:185-191 | one node of a batch: the document advances by one node of the rendering, and the walker count by one |
| `Content.Page.ProcessNodeAt` | content.js:185-191 | the node's line is exactly what the rendering puts after it |
| `Content.Page.PlaceResult` | content.js:186-190 | a result holding a non-empty line goes right after its node; an empty line leaves no text node |
| `Content.Page.ProcessNextBatch` | content.js:197-209 | a round either finishes the rendering or advances past the dropped eleventh node with the line index at the next multiple of ten |
| `Content.Page.CollectAndProcess` | content.js:197-205 | the `while` loop and `processBatch` of one round, with where the batch ended and whether an eleventh node was dropped |
| `Content.Page.ShowTranslationFullPage` | content.js:142-211 | full-page `showTranslation` leaves exactly the rendering of the cleared region with the lines of `text.split('\n')` |
| `Content.Page.ShowTranslationSelection` | content.js:212-224 | the first loading element is replaced by a result holding the text; nothing changes when there is none |
| `Content.Page.ShowTranslation` | content.js:141-225 | dispatches on the mode, as the two methods above state |
| `Content.Page.Dispatch` | content.js:360-376 | `getPageContent` replies with the page content; `translationStart` shows the loading state; `showTranslation` and `showError` go through the same `showTranslation`, the error prefixed with `错误: `; a page script stuck in the loading loop handles nothing |

## Left out

- `createUI`, the progress indicator's HTML and its `Math.round` percentage
  (content.js:2-138, 172-176, 269-300): styling and floating point. Only `totalParagraphs` is kept.
- The `setTimeout` delays (content.js:207; background.js:55, 62, 65). The batches of
  full-page `showTranslation` run one after another in one method call, and the retry waits
  are counted.
- The endless 100 ms rescheduling of full-page `showTranslation` once a batch finds no line
  left. Those rounds change nothing, so the model stops and reports `stalled`.
- Interleaving of a message with the batches of an earlier `showTranslation`: the model
  handles one message at a time.
- The `chrome.*` listeners and context menus (background.js:1-29), `chrome.runtime.sendMessage`
  and `popup.js`: these are wiring and settings UI. popup.js is not part of this model.
- The system-prompt literal (background.js:118-153), the HTTP headers and the `targetLang`
  interpolation: a request keeps only its URL, its user message and its model.
- `console.error` logging, and a failure of `response.text()` on a non-ok response.
- A rejected `chrome.storage.sync.get` (background.js:75). It would reach the `catch` and
  send a `showError` with the storage error's message. The model takes the settings as a
  given `Settings` value, so this path is not modelled.
- Content.Page.ShowLoadingFullPage: the loading loop runs for at most `fuel` rounds,
  because the source's loop does not terminate. The contract states the document after
  `fuel` rounds and that the loop is still running.
- Characters outside the Basic Multilingual Plane: a `char` is one UTF-16 code unit, so
  lengths count code units, as `.length` does.
- Elements the page itself gave the class `translation-result` whose text lies deeper than
  the element's own child text nodes. The removal model drops only the nodes whose parent
  has that class.
- Inserted `div`s whose text is empty. They hold no text node, so they are not in the
  sequence; they are invisible to the walker and to the removal.
- The live `Range` of the selection is given in the document after the removal of earlier
  results (`Content.Boundary`), as the browser adjusts it.
- Content.Page.Dispatch: for a selection-mode `translationStart`, it states only that
  nothing changes without a selection and that the page script is not stuck. The document
  it leaves is what `Content.Page.ShowLoading` states.
- Relay.SendMessageToTab: `maxRetries` is an integer. A non-integer argument is not modelled.
- Object keys such as `__proto__`, which `JSON.parse` and the `in` operator treat
  specially: an object is a plain map from keys to values.
