# Chatbot service core, modelled in Dafny

This project models the core of a small Flask chatbot service (`app.py`). It covers four parts:

- **Response cleaner** (`clean_response`). It collapses runs of identical adjacent paragraphs. It then undoes one verbatim doubling of the whole text and strips surrounding whitespace. An absent or empty reply is replaced by a fixed fallback sentence.
- **Request fingerprint** (`get_request_id`). The `session_id` field, the raw `user_input` field and the ten-second time bucket are joined with colons. Identical requests inside one aligned ten-second window share a key.
- **`POST /chat` handler.**
  - It validates the content type, the JSON body and the input.
  - It answers a request whose key is in the deduplication cache `request_cache` with the cached payload.
  - Otherwise it records the session's last activity in `session_activity` and asks the model for a reply.
  - It hands the exchange to the persistence sink and stores the payload under the key.
  - When the cache grows past 100 entries, it evicts the oldest-inserted entry.
- **`active_sessions` figure** reported by `GET /health`.

Modules:

- `Wrappers`: `Option` and `Result`.
- `Text`: Python's `str.split`, `str.join`, `str.strip` and the decimal rendering of integers, with their laws.
- `ResponseCleaner`: the cleaner as a specification function `Clean`, plus the imperative `CleanResponse`, whose loop is proved equal to it.
- `CleanerExamples`: the cleaner on concrete texts.
- `Requests`: the request, its body, the replies, and the validation `Admit`.
- `Fingerprint`: the request key.
- `RequestCache`: the insertion-ordered cache with first-in-first-out eviction, as a value.
- `ChatHandler`: one request handled as a function `Serve` on the service state. The class `ChatServer` holds the two dictionaries as fields, and its `Chat` method updates them in place and is proved to agree with `Serve`.

Three behaviours of `app.py` that the model keeps as written:

- The fallback sentence is the Indonesian text in `app.py:140`.
- The key is built from the raw `user_input`, not the stripped one (`app.py:198`). Two requests whose inputs differ only in surrounding whitespace therefore get different keys (`KeyDistinguishesInput`), yet they are answered from the same stripped input.
- The session's last-activity time is updated only on a cache miss (`app.py:238-240`). A cache hit leaves it alone (`CacheHitReplays`).

## Model

| member | source | states |
|---|---|---|
| Text.Split | app.py:143 | `str.split` on a non-empty separator. It always gives at least one piece. `JoinSplit` proves that joining the pieces gives back the text, and `SplitPiecesFree` proves that no piece contains the separator. |
| Text.Join | app.py:150 | `str.join`. `JoinSplit` and `JoinSnoc` state what it gives. |
| Text.Strip | app.py:156 | `str.strip()` with no argument, over the characters Python counts as whitespace. `StripSpec`, `StripFixed` and `StripBlank` characterise it. |
| Text.SplitFirst | app.py:143 | The split runs left to right. When there are several pieces, the text starts with the first piece followed by the separator, and the separator does not occur before the end of that piece. |
| Text.Find | app.py:143 | Finds the leftmost occurrence of the separator at or after a position, or reports that there is none after that position. |
| Text.SplitPiecesFree | app.py:143 | No piece produced by `split` contains the separator. |
| Text.JoinSplit | app.py:143-150 | Joining the split pieces with the same separator gives back the original text. |
| Text.JoinSnoc | app.py:150 | Appending a paragraph to a non-empty list appends the separator and that paragraph to the joined text. |
| Text.TrimStart | app.py:156 | Gives the suffix of the text after all leading whitespace is removed. Every dropped character is whitespace, and the result does not start with whitespace. |
| Text.TrimEnd | app.py:156 | Gives the prefix of the text after all trailing whitespace is removed. Every dropped character is whitespace, and the result does not end with whitespace. |
| Text.StripSpec | app.py:156 | `strip()` returns the slice between the leading and trailing whitespace. Everything it cuts off is whitespace, and the result has no surrounding whitespace. |
| Text.StripFixed | app.py:156 | Stripping leaves a text unchanged exactly when the text has no surrounding whitespace. |
| Text.StripBlank | app.py:225-228 | Stripping gives "" exactly when every character is whitespace. |
| Text.Digits | app.py:200-201 | The decimal rendering of the bucket is non-empty and consists only of digits. Numbers from 10 upward have at least two digits. |
| Text.DigitsInjective | app.py:200-201 | Two buckets render alike exactly when they are equal. |
| ResponseCleaner.Collapse | app.py:146-148 | Never lengthens the list. The last paragraph always survives. No two adjacent paragraphs of the result are equal. |
| ResponseCleaner.SurvivorIndices | app.py:146-148 | The positions of the paragraphs that survive collapsing. Each one is a position of the input. |
| ResponseCleaner.SurvivorIndicesSpec | app.py:146-148 | The surviving positions are strictly increasing. A position is listed exactly when it holds the first paragraph or a paragraph that differs from the one just before it. |
| ResponseCleaner.CollapseSelects | app.py:146-148 | Collapsing returns exactly the paragraphs at the surviving positions, in input order. So a paragraph equal to an earlier one that is not right before it is kept. |
| ResponseCleaner.CollapseFixed | app.py:146-148 | Collapsing leaves a list unchanged exactly when it has no equal adjacent paragraphs. |
| ResponseCleaner.CollapseIdempotent | app.py:146-148 | Collapsing twice gives the same result as collapsing once. |
| ResponseCleaner.CollapseKeepsValues | app.py:146-148 | Every paragraph text of the input still occurs in the result, and no new text appears. |
| ResponseCleaner.CollapseShrinks | app.py:146-148 | Collapsing either changes nothing or removes at least one paragraph. |
| ResponseCleaner.CollapseJoinLength | app.py:143-150 | The rejoined text is never longer than the original. When a paragraph was removed, it is shorter by at least one separator. |
| ResponseCleaner.ParagraphPassIdentity | app.py:143-150 | Split, collapse and join return the text unchanged exactly when no two adjacent paragraphs are equal. |
| ResponseCleaner.Halve | app.py:153-154 | Keeps the first half of a text whose two halves are equal, once. `HalveSpec` and `HalveDoubled` state when that happens and what it gives. |
| ResponseCleaner.HalveSpec | app.py:153-154 | Halving changes the text exactly when the two halves are equal and the text has at least two characters. The text then has even length and is the kept half written twice. |
| ResponseCleaner.HalveDoubled | app.py:153-154 | Any non-empty text written twice is halved back to that text. |
| ResponseCleaner.CleanText | app.py:143-156 | The cleaning of a non-empty text: split, collapse, join, halve, strip. `CleanShape`, `CleanIdentity` and `CleanDoubled` state what it gives. |
| ResponseCleaner.Clean | app.py:139-140 | No text, or an empty text, gives the fallback sentence. |
| ResponseCleaner.CleanShape | app.py:137-156 | For a non-empty text the cleaned reply has no surrounding whitespace and is never longer than the text. |
| ResponseCleaner.CleanIdentity | app.py:137-156 | A non-empty text comes back unchanged when it meets three conditions: no equal adjacent paragraphs, not a doubled text, and no surrounding whitespace. |
| ResponseCleaner.CleanDoubled | app.py:153-156 | A clean text written twice is cleaned to one copy. |
| ResponseCleaner.CleanResponse | app.py:137-156 | The loop, which compares each paragraph with the last one kept, computes exactly `Clean`. |
| CleanerExamples.SplitWithoutNewline | app.py:143 | A text without newlines is one paragraph. |
| CleanerExamples.SplitExample | app.py:143 | The paragraph breaks of the example texts fall where expected. |
| CleanerExamples.CollapseExample | app.py:146-148 | Two equal adjacent paragraphs collapse into one. |
| CleanerExamples.CleanAfterParagraphPass | app.py:150-156 | When the paragraph pass already gives a text that is neither doubled nor padded, that text is the reply. |
| CleanerExamples.JoinExample | app.py:150-154 | The rejoined example is not a doubled text and has no surrounding whitespace. |
| CleanerExamples.ExampleAdjacent | app.py:137-156 | "A", "A", "B" as paragraphs are cleaned to "A", "B". |
| CleanerExamples.ExampleDoubled | app.py:153-156 | "ABCABC" is cleaned to "ABC". |
| CleanerExamples.ExampleHalvedOnce | app.py:153-156 | Halving happens once: "AAAA" is cleaned to "AA", not "A". |
| CleanerExamples.ExampleUnchanged | app.py:153-156 | A text whose halves differ, "ABCD", is left alone. |
| Requests.SessionOf | app.py:226 | The session label, kept only when `session_id` is truthy. For the modelled values that means a non-empty string. Its effect is stated by `CacheMissPersists`, `CacheMissTouchesSession` and `ActiveSessionsGrowth`. |
| Requests.Admit | app.py:213-230 | The checks at the top of the handler. `AdmitSpec` and `AdmitValue` state which requests get through and what they carry on. `AdmitRejections` gives the status and message of every rejection branch. |
| Requests.AdmitSpec | app.py:213-230 | A request gets through exactly when three conditions hold: the content type is JSON, the body is an object, and `user_input` is a string with a non-whitespace character. |
| Requests.AdmitValue | app.py:225-230 | What gets through is `user_input` stripped, which is non-empty and has no surrounding whitespace, together with the truthy session label and the raw fields. |
| Requests.AdmitRejections | app.py:213-230 | Every rejection is status 400, 415 or 500, and each check gives its own reply. A content type other than JSON gives 415 with the content-type message. A malformed body gives 400. A falsy body (`null`, `0`, `[]`, `{}`) gives 400 with the invalid-JSON message. A truthy non-object body, or a null `user_input`, gives 500 with the server-error message. Blank or missing input in a non-empty object gives 400 with the empty-input message. |
| Fingerprint.Bucket | app.py:200 | The bucket of a clock reading is the ten-second window that contains it: `bucket * 10 <= now < (bucket + 1) * 10`. |
| Fingerprint.Rendered | app.py:198-199 | How a field is rendered in the key: "" when it is absent and "None" when it is null. `NullSessionRendersAsNone` states the consequence. |
| Fingerprint.Key | app.py:201 | The `session:input:bucket` format. `KeyEquality` states when two keys are equal. |
| Fingerprint.RequestId | app.py:196-201 | `get_request_id`. `SameKeyIffSameBucket`, `KeyDistinguishesInput` and `DifferentBucketsDifferentKeys` state when two requests share a key. |
| Fingerprint.LastColon | app.py:201 | Two texts that end in a colon followed by a colon-free tail split at that colon in the same way. |
| Fingerprint.KeyEquality | app.py:196-201 | Two keys are equal exactly when their buckets are equal and the text before the last colon is equal. |
| Fingerprint.SameKeyIffSameBucket | app.py:196-201 | Given the same fields, two clock readings give the same key exactly when they fall in the same ten-second bucket. |
| Fingerprint.KeyDistinguishesInput | app.py:198 | With the same session and bucket, keys are equal exactly when the raw inputs are equal. This includes inputs that differ only in whitespace. |
| Fingerprint.DifferentBucketsDifferentKeys | app.py:200-201 | Keys from different buckets never collide. |
| Fingerprint.SeparatorCollision | app.py:201 | The colon is not escaped, so session "a" with input "b:c" and session "a:b" with input "c" get the same key. |
| Fingerprint.NullSessionRendersAsNone | app.py:199-201 | A null `session_id` renders as "None" and shares its keys with the label "None". |
| RequestCache.Empty | app.py:95 | The cache at process start is empty and consistent. |
| RequestCache.SizeMatchesOrder | app.py:258-264 | A consistent cache has as many entries as keys in its insertion order, and at most 100. |
| RequestCache.Store | app.py:258-264 | Storing a new key keeps the cache consistent and within its cap, and the key then maps to the stored payload. |
| RequestCache.StoreFifo | app.py:258-264 | The new key becomes the newest. Below the cap nothing else changes. At the cap exactly the oldest key is evicted, and every other entry keeps its value. |
| RequestCache.StoreSize | app.py:258-264 | The size grows by one until it reaches 100, then stays at 100. |
| ChatHandler.Initial | app.py:92-95 | At start both dictionaries are empty and nothing has been persisted. |
| ChatHandler.Touch | app.py:239-240 | Only a truthy session gets `now` as its last activity. Every other session is unchanged, and no other session is added. |
| ChatHandler.Serve | app.py:209-266 | Handling a request keeps the cache consistent and within its cap. |
| ChatHandler.RejectedRequestChangesNothing | app.py:213-230 | A rejected request is answered with status 400, 415 or 500. It changes neither the cache, the sessions nor the persisted rows. |
| ChatHandler.CacheHitReplays | app.py:232-236 | A cached key is answered with the stored payload verbatim, and nothing changes. |
| ChatHandler.CacheMissGenerates | app.py:242-264 | A miss is answered with the text generated from the stripped input and the current time. That payload is then stored under the key, and the cache stays within 100 entries. |
| ChatHandler.CacheMissPersists | app.py:246-249 | A miss hands exactly one row to the persistence sink: the session, the stripped input and the generated text. |
| ChatHandler.CacheMissTouchesSession | app.py:238-240 | A miss sets the truthy session's last activity to now. No other session is added or changed. |
| ChatHandler.ActiveSessionsGrowth | app.py:238-240 | `active_sessions` grows by one exactly when a miss carries a truthy session label not seen before. Otherwise it stays the same. |
| ChatHandler.ReplayWithinWindow | app.py:232-236 | The same request sent twice within one ten-second bucket gets the same reply twice. The second request changes nothing, so the model is asked at most once. |
| ChatHandler.ChatServer.constructor | app.py:92-95 | The new service is in the initial state. |
| ChatHandler.ChatServer.Chat | app.py:209-266 | The in-place update of the cache, the sessions and the persisted rows, and the reply, are exactly those given by `Serve`. |
| ChatHandler.ActiveSessions | app.py:274 | The `active_sessions` figure: the number of sessions tracked. `ActiveSessionsGrowth` states how it changes. |
| ChatHandler.ChatServer.ActiveSessionCount | app.py:274 | Returns the number of tracked sessions. |

## Left out

- **`generate_response` and `save_to_mysql`.** `generate_response` calls an external model service. It is the parameter `generate`, a function from the stripped input to the reply text. That function stands for all of `generate_response`: the model call, its cleaning of the reply (`app.py:189`) and the error text it returns when the call fails. `save_to_mysql` is modelled only as the ghost sequence of rows handed to it. Its SQL, its success flag, `mysql_available` and the warning on failure are not modelled. They change no state the handler reads.
- **Time.** One clock reading `now`, in whole seconds, serves all three uses: the bucket, the session's last activity and the payload timestamp. The source reads the clock three times: `time.time()` once and `datetime.now()` twice. The ISO rendering of the timestamp is not modelled. `int(time.time() / 10)` equals `now / 10` for the whole seconds of a non-negative clock.
- **JSON values.** Field values are modelled as null or string only. A number, boolean, list or object in `user_input` or `session_id` is not modelled. For `user_input`, `strip()` on such a value fails with 500 in the source. `session_id` is never stripped. A number there is rendered into the key and stored in `session_activity`, and a truthy list or object fails as an unhashable key at `app.py:240`. A body that is not an object is modelled only by its truthiness. A falsy one gives 400. A truthy one fails on `.get` with status 500. The modelled message is the one the JSON 500 handler (`app.py:282-286`) gives in a non-debug deployment. With `debug=True` (`app.py:292`), Flask shows its debugger page instead, still with status 500. Malformed JSON is a 400 with the framework's "Bad Request" text.
- **Content-type check.** It is modelled as a boolean: whether the header is exactly `application/json`.
- **The rest of the service.** Flask routing, `index`, the 404 handler, logging, start-up configuration (API key, `instruksi.txt`, ports) and the browser script are outside this model.
- **Concurrency.** Concurrent requests and threading are not modelled. Requests are handled one at a time.
- **`str.split` with an empty separator.** It is not modelled. The source only splits on "\n\n".

