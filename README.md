# RSS-to-Telegram bot: decision logic, modelled in Dafny

The bot polls several RSS feeds. It merges their entries round-robin, has each entry
rewritten by a text-generation service, and drops near-duplicates of what it published
in the last 24 hours. Whatever is left goes to a Telegram channel, with a pause after
every third successful post. This project models the decisions in `main.py` and proves
what they promise:

- the history window `sent_posts`, with its append-and-prune (`save_post_record`) and
  its duplicate scan (`is_duplicate`);
- gathering photos and a video from an entry (`extract_media`);
- the fallback in the rewriting step (`rewrite_with_gemini`);
- the choice of Telegram call and the truncation of its text;
- the order of steps in `send_post`;
- one round of `main_loop`: the index-major walk over the feeds, the success counter,
  the burst pause and the pacing sleeps.

Modules:

- `Wrappers` (wrappers.dfy): `Option`, and `Outcome` for a call whose exception escapes.
- `Text` (text.dfy): Python's `s[:n]` and `str.strip()`.
- `History` (history.dfy): `Record`, the two window tests, `Pruned`, the `Duplicate`
  predicate, and the class `HistoryStore` holding `sent_posts`. Its methods are
  `IsDuplicate` and `SaveRecord`.
- `Media` (media.dfy): feed entries as the core sees them, and `ExtractMedia`.
- `Rewrite` (rewrite.dfy): the service's reply as data, and `RewriteWithGemini`.
- `Delivery` (delivery.dfy): the three Telegram sends, and `ChooseDelivery`.
- `Pipeline` (pipeline.dfy): `SendPost` and an end-to-end scenario.
- `Round` (round.dfy): the schedule `Schedule`, the round's specification `Run`, and
  `RunRound`, the nested loop with its `break break`.

Inputs that stand for the outside world:

- `sim(a, b)` stands for the cosine similarity of the two texts' embeddings.
- A `Rewrite.Reply` stands for what the HTTP call, the JSON path and the regular
  expression produced.
- `delivered(call)` says whether the Telegram call returned (true) or raised (false).
- `sendPost(slot)` is the result `send_post` gives for that entry during the round.
  Each slot is attempted at most once per round, so this is as general as a
  per-call oracle.
- The two clock readings (`checkTime` for `is_duplicate`, `saveTime` for
  `save_post_record`) are separate parameters, because the code reads the clock twice.
- `DELAY_SECONDS` is a parameter.

Instants are integers counting microseconds, the resolution of Python's `datetime`.
`Window` is 24 hours in those units.

## Behaviour at the edges

The model keeps these behaviours of the code as written:

- **Empty list of feeds.** `max()` over no feeds raises (main.py:177), so a round
  over no feeds would not be an empty round. `"".split("|")` always yields at least
  one URL (main.py:24), so the list is never empty. `RunRound` requires at least one
  feed.
- **Pacing.** The entry whose send reaches the burst limit is followed only by the
  `DELAY_SECONDS` sleep, not by the 30-second pacing sleep, because the `break` comes
  before `asyncio.sleep(30)` (main.py:190-195). Every other attempted entry is
  followed by the 30-second sleep.
- **Rewrite errors.** Not every failure of the rewrite falls back to the original
  text. `session.post` and `response.json()` sit outside the `try`
  (main.py:102-105), so a failed request, or a 200 response that is not JSON, raises
  out of `send_post`. `RewriteWithGemini` returns `Raised` in those two cases.
- **The two window tests.** The 24-hour window is tested in two different ways. The
  scan skips a record only when `now - ts > 24h` (`Compared`). The prune keeps a
  record only when `ts > now - 24h` (`KeptAfter`). So a record aged exactly 24 hours
  is still compared but is pruned on the next save. Both tests are kept as written;
  `WindowBoundary` states the difference.

## Model

| member | source | states |
|---|---|---|
| Text.Truncate | main.py:131-138 | `s[:n]` is the prefix of `s` of length min(\|s\|, n) |
| Text.Strip | main.py:110 | the result is a slice of the input, everything cut from either end is whitespace, and the result neither starts nor ends with whitespace |
| Text.StripUnchanged | main.py:110 | a string with no whitespace at either end strips to itself |
| History.Pruned | main.py:81-82 | every record kept is strictly newer than the cutoff, and the result is no longer than its input |
| History.PrunedFromInput | main.py:82 | every record of the pruned history is one of the input's records and is newer than the cutoff |
| History.PrunedAppend | main.py:82 | pruning distributes over concatenation, so records keep their original order |
| History.PrunedMembers | main.py:82 | a record survives exactly when it was present and its timestamp is strictly after the cutoff |
| History.PrunedAllFresh | main.py:81-84 | a history whose records are all newer than the cutoff is unchanged by the prune |
| History.WindowBoundary | main.py:64-82 | the scan's test and the prune's test disagree exactly on a record aged exactly the window (compared, yet pruned); a record older than the window passes neither, a younger one passes both |
| History.DuplicateSingle | main.py:63-71 | against one record: duplicate iff the record is inside the window and similarity strictly exceeds 0.60, so equality is not a duplicate |
| History.DuplicateAppend | main.py:63-71 | the verdict over a concatenated history is the disjunction of the verdicts, so traversal order does not matter |
| History.HistoryStore.constructor | main.py:33 | the store starts with the records it is given |
| History.HistoryStore.IsDuplicate | main.py:59-71 | returns true iff some record with now - ts <= 24h has similarity strictly above 0.60 (false on an empty history); the history is only read |
| History.HistoryStore.SaveRecord | main.py:75-84 | the new history is the old records with ts > now - 24h, in order, followed by the new record; every stored record is then younger than the window |
| Media.PhotoUrlsMembers | main.py:42-47 | a URL is among the photos iff it is non-empty and is the `src` of some `img` |
| Media.PhotoUrlsAppend | main.py:44-47 | photos keep document order |
| Media.LastVideoUrlIsLast | main.py:48-51 | the video is the `url` of the last enclosure whose type starts with "video", and None when there is no such enclosure |
| Media.ExtractMedia | main.py:39-52 | the loops compute exactly the kept `img` sources in order and the last video URL; an entry without a summary has no photos |
| Rewrite.RewriteWithGemini | main.py:98-115 | 200 with a match gives the two stripped groups; any other status, a caught extraction error or no match gives the original (title, text); a failed request or a non-JSON 200 body raises |
| Rewrite.GroupsKeptWhenTrimmed | main.py:108-110 | on a 200 match whose groups have no whitespace at either end, the groups come back exactly |
| Rewrite.FallbackOnStatus | main.py:104-115 | on a non-200 status the original pair comes back unmodified, whatever the body |
| Delivery.ChooseDelivery | main.py:130-138 | a non-empty video URL wins; otherwise non-empty photos go as a group of the first min(n, 10); otherwise a message is sent. Captions are the first min(\|t\|, 1024) characters, a message the first min(\|t\|, 4096) |
| Pipeline.SendPost | main.py:118-146 | a Telegram call is made iff the rewrite returned and its text is not a duplicate, and it is then exactly the call chosen for the rewritten entry (so a duplicate is never published); returns true iff that call was made and succeeded; only then does the history change, by one save of the rewritten text; a duplicate or failed delivery returns false with the history unchanged; a rewrite exception escapes with no call and the history unchanged |
| Pipeline.SuccessAddsOneRecord | main.py:140-142 | after a successful send the new record is last, the history grows by at most one, and every other record is an old one still inside the window |
| Pipeline.ScenarioRewrite | main.py:119-121 | in the end-to-end scenario the rewrite yields ("X2", "Hello World!") |
| Pipeline.ScenarioRound | main.py:177-199 | in the scenario (one feed with the entry, one empty feed) the round's schedule is that single entry, and when its send succeeds the round ends with one post sent |
| Pipeline.EndToEnd | main.py:118-146 | with an empty history the scenario's entry is sent as exactly one message with the full HTML text, and the history then holds exactly the record of its rewritten text |
| Pipeline.ScenarioDelivery | main.py:122-138 | in the scenario the entry goes out as one message with the full HTML text |
| Round.MaxLen | main.py:177 | the result is the length of the longest feed |
| Round.SlotsFromSound | main.py:180-183 | every slot the walk from position (i, f) visits is an existing entry at or after (i, f) |
| Round.SlotsFromComplete | main.py:180-183 | every existing entry at or after (i, f) with index below the longest feed's length is visited by the walk from (i, f) |
| Round.SlotsFromMembers | main.py:180-183 | from position (i, f) on, the walk with row bound maxLen visits exactly the existing entries at or after (i, f) whose index is below maxLen; with maxLen the longest feed's length (as in `Schedule`) that is every existing entry at or after (i, f) |
| Round.SlotsFromStrictly | main.py:180-183 | the walk visits slots in strictly increasing index-major, feed-minor order |
| Round.ScheduleOrder | main.py:180-183 | a round visits entry (i, f) iff it exists, each once, in index-major, feed-minor order |
| Round.ScheduleExample | main.py:180-183 | feeds of lengths 2, 0, 3 are visited as feeds 0, 2, 0, 2, 2 |
| Round.RunAttemptsAll | main.py:186-199 | with fewer than 3 successes every scheduled entry is attempted; failures never end the round |
| Round.RunStopsAtLimit | main.py:188-199 | otherwise the attempted entries are exactly those up to and including the one whose success is the 3rd, and none after it |
| Round.RunSuccesses | main.py:188-193 | the successes in a round number min(3, successful entries scheduled) |
| Round.RunPacing | main.py:188-195 | the trace alternates attempt and sleep; the j-th attempt is the j-th scheduled entry with its outcome; its sleep is DELAY_SECONDS when it brings the successes to 3, else 30 s |
| Round.RunCountPaired | main.py:190-195 | every attempt is followed by exactly one sleep |
| Round.CountOkAll | main.py:188-190 | when every send succeeds, the successes counted over the entries are their number |
| Round.BurstAllSucceed | main.py:188-199 | when every entry would be sent and at least three are scheduled, exactly the first three are attempted and sent (of five, the last two wait for the next cycle) |
| Round.RunRound | main.py:177-199 | the nested loop with its double break produces exactly the trace the round's specification gives for the schedule; the counter equals the successes in the trace and never exceeds 3 |

## Left out

- Embeddings: `SentenceTransformer` and `pytorch_cos_sim` are floating-point numerics behind a foreign model. They are the parameter `sim`.
- An exception while computing embeddings is not modelled, because `sim` is total.
- Feed fetching with `feedparser`, and the sort by `published_parsed or utcnow()` (main.py:173-175). Each feed is an already-ordered sequence.
- HTML parsing with BeautifulSoup (`clean_html`, finding `img` tags). A summary arrives as its plain text and its list of `src` values.
- The Gemini call, its prompt, the JSON path and the exact regular expression. Only the branch structure is kept, and the reply is an input.
- The aiogram calls, `InputMediaPhoto` and `parse_mode`. A send's success is an input. The model does not check whether a caption cut at 1024 characters is still valid HTML.
- JSON persistence in `save_post_record` (main.py:86-95) and `load_sent_posts` (main.py:148-163), which are file I/O and ISO-8601 serialisation. The `HistoryStore` constructor takes the loaded records.
- Configuration from the environment, logging, real sleeping, and the endless `while True` driver. Only one round is modelled.
- RunRound: it takes `send_post`'s results as an input rather than calling `SendPost`, so the history updates made during a round are not part of its contract.
- RunRound: an exception that escapes `send_post` (an escaped rewrite error or an embedding error) would end `main_loop`. The round's input is a plain success flag, so this is not modelled.
- Text.Strip: Python strings are sequences of code points and Dafny strings of Unicode scalar values. Lone surrogates are therefore outside the model.
