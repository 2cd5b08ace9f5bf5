# LINE keyword bot: keyword filter, rolling message window, unsend lookup

A model of the logic inside the webhook handlers of a LINE chat bot
(`app.py`). The bot does three things that can be stated and proved:

- **Keyword filter.** It joins the characters of the keyword `哈囉` with
  `.*` and runs `re.search` of that pattern over each incoming text.
  `KeywordFilter.Matches` gives the meaning through index witnesses: the
  keyword's characters occur in order, and each gap between two consecutive
  ones holds no newline, because Python's `.` does not match `\n`.
  `KeywordFilter.Search` is an executable backtracking search for this one
  pattern shape, and it is proved equal to `Matches` in both directions.
- **Rolling message window.** A text that does not match is stored under the
  realtime database's `messages` node as `{order, user_id, message_id,
  message_text}`. An empty node is first seeded with the placeholder
  `{5, "UID", "MID", "Message Text"}`. Below 5 records the new record is
  pushed with `order = 5 - size`. At 5 or more it is pushed, and then the
  child with the smallest key is deleted. The node is the class
  `MessageStore.MessagesRef`: its children in key order, plus the next push
  key. Push keys are chronological, so each push gets a key above every key
  already present. `MessageStore.Recorded` is the value-level statement of
  one update. The lemmas about it state the seeding, the growth, the eviction
  and the size bound.
- **Unsend lookup.** On an unsend event the bot reads every stored record.
  For each record whose `message_id` is the retracted id, it pushes
  `你是不是想要說：「<text>」` to the event's group. `Handlers.UnsendPushes`
  is that list of pushes. Lemmas state that it has exactly one push per
  matching record, that every push quotes a matching record, and that it is
  empty exactly when nothing matches.

The LINE messaging API is the class `Messaging.MessagingApi`. It keeps an
outbox: every reply and push request is appended to its `sent` sequence.

Modules: `Wrappers` (Option), `KeywordFilter` (keyword.dfy), `MessageStore`
(store.dfy), `Messaging` (messaging.dfy), `Handlers` (handlers.dfy).

Three places where `app.py` behaves differently from a casual reading. The
model follows the code:

- The filter is not a plain subsequence test. A newline between two keyword
  characters stops the match. `KeywordFilter.NewlineBlocksMatch` shows this
  for `"哈\n囉"`.
- `handle_unsend` on an empty node does not quietly do nothing. The
  realtime database returns `None` for an empty node, and `for key in None`
  raises a `TypeError` before anything is sent. `Handlers.HandleUnsend`
  returns `Raised(...)` in that case.
- Texts from every kind of chat are stored, but `handle_unsend` reads
  `event.source.group_id` at the first matching record. In a one-to-one
  chat or a room the source has no group id, so the handler raises there
  before any push. `Handlers.UnsendEvent` carries the group id as an
  `Option`, and `Handlers.HandleUnsend` returns `Raised(...)` in that case.

## Model

| member | source | states |
|---|---|---|
| `KeywordFilter.Pattern` | app.py:82-85 | the joined pattern of a non-empty keyword is 3·n−2 characters long and starts and ends with the keyword's first and last characters; the empty keyword gives the empty pattern |
| `KeywordFilter.PatternAt` | app.py:83-84 | keyword character j is at position 3·j of the pattern, and `.*` follows it unless it is the last |
| `KeywordFilter.KeywordIsLiteral` | app.py:82-85 | the fixed keyword has no regex metacharacters and no newline, and its pattern is `哈.*囉` |
| `KeywordFilter.SearchCorrect` | app.py:92 | the backtracking search from position 0 succeeds iff an index witness for the pattern exists |
| `KeywordFilter.Search` | app.py:92 | `re.search` of the joined pattern is true iff `Matches(k, t)`: the keyword characters occur in order with no newline in any gap between consecutive ones |
| `KeywordFilter.MatchesIffLineFreeSpan` | app.py:83-92 | for a keyword without newlines: match iff the characters occur in strictly increasing positions and no newline lies between the first and the last |
| `KeywordFilter.MatchIsSubsequence` | app.py:92 | for every keyword, every match is an in-order occurrence (subsequence) of the keyword |
| `KeywordFilter.NewlineBlocksMatch` | app.py:92 | `"哈\n囉"` contains the keyword as a subsequence, yet the pattern does not match it |
| `KeywordFilter.RepeatedCharactersMatch` | app.py:92 | `"哈囉囉囉"` and `"哈 囉"` match; `"囉哈"` does not |
| `MessageStore.Pushed` | app.py:141-146 | a push appends exactly one child under the next key, keeps the old children, and preserves ascending keys |
| `MessageStore.Without` | app.py:137 | deleting a key leaves exactly the children with other keys |
| `MessageStore.WithoutOldest` | app.py:135-137 | in a well-formed node, deleting the smallest key removes exactly the first child |
| `MessageStore.RecordedWellFormed` | app.py:117-146 | recording keeps keys strictly ascending and below the next push key |
| `MessageStore.RecordedNewest` | app.py:127-146 | the newest child carries the event's user id, message id and text unchanged, under a key greater than every earlier key |
| `MessageStore.RecordedSeedsEmpty` | app.py:117-123 | on an empty node exactly one placeholder `{5, UID, MID, Message Text}` is pushed, then the record with order 4 |
| `MessageStore.RecordedGrows` | app.py:138-146 | with 1 to 4 children the node grows by exactly one; old children stay in place; the new record has order 5 − size (1..4) and the largest key |
| `MessageStore.RecordedEvictsOldest` | app.py:124-137 | with 5 or more children exactly the child with the smallest key is removed; the size is unchanged, the other children stay in place, and the new record comes last with order 5 − size ≤ 0 |
| `MessageStore.RecordedAllBounded` | app.py:116-146 | from a well-formed node of at most 5 children, any sequence of recordings leaves at most 5 children |
| `MessageStore.Latest` | app.py:124-137 | the latest messages are a suffix of the history, all of it up to 5 messages and exactly 5 beyond |
| `MessageStore.LatestAppend` | app.py:124-137 | trimming to the latest 5 before more messages arrive keeps the same latest 5 as trimming once at the end |
| `MessageStore.RecordedHoldsLast` | app.py:116-146 | one recording on a node of at most 5 children keeps it at most 5 and shifts the held messages: the new text joins them and, at capacity, the oldest falls out |
| `MessageStore.RecordedAllHoldsLast` | app.py:116-146 | after any run of recordings the newest children hold the latest texts of everything recorded, oldest first, with their user id, message id and text |
| `MessageStore.WindowKeepsLatest` | app.py:116-146 | texts recorded on an empty node end up as its newest children, the most recent 5 of them (or all, when fewer), oldest first |
| `MessageStore.SixRecordsKeepLastFive` | app.py:116-146 | six texts recorded on an empty node leave exactly the last five, oldest first, each with its user id, message id and text |
| `MessageStore.MessagesRef.constructor` | app.py:50 | a fresh `messages` node is empty |
| `MessageStore.MessagesRef.Get` | app.py:117 | a read returns None iff the node is empty, else every child |
| `MessageStore.MessagesRef.Push` | app.py:118 | a push appends the record under the next key |
| `MessageStore.MessagesRef.OldestKeys` | app.py:135 | `order_by_key().limit_to_first(1)` yields nothing on an empty node, else the single smallest key present |
| `MessageStore.MessagesRef.Delete` | app.py:137 | deleting a child removes exactly the children with that key |
| `MessageStore.SmallestKeyIsFirst` | app.py:135-137 | in a well-formed node the smallest key present is the first child's, and deleting it leaves the other children, still well formed |
| `MessageStore.MessagesRef.SeedIfEmpty` | app.py:117-123 | the seeding loop pushes exactly one placeholder on an empty node and leaves any other node unchanged; the node is then non-empty |
| `MessageStore.MessagesRef.DeleteOldest` | app.py:135-137 | querying the oldest key and deleting every returned key removes exactly the first child of a well-formed node |
| `MessageStore.MessagesRef.Record` | app.py:116-146 | the seeding loop, the push and the eviction leave the node equal to `Recorded` of the old node, and keep it well formed |
| `Messaging.MessagingApi.ReplyMessage` | app.py:109-115 | a reply request is appended to the outbox |
| `Messaging.MessagingApi.PushMessage` | app.py:172-179 | a push request is appended to the outbox |
| `Handlers.Quote` | app.py:176 | the push text is the prefix `你是不是想要說：「`, the retracted text, and the suffix `」` |
| `Handlers.QuoteInjective` | app.py:176 | different retracted texts give different push texts |
| `Handlers.UnsendPushes` | app.py:169-181 | the unsend pushes are all addressed to the event's group, at most one per stored record |
| `Handlers.UnsendPushesSound` | app.py:170-179 | every push quotes the text of a stored record whose message id is the retracted one |
| `Handlers.UnsendPushesComplete` | app.py:170-179 | every stored record with the retracted message id is quoted to the group |
| `Handlers.UnsendPushesCount` | app.py:170-181 | the number of pushes equals the number of stored records with the retracted message id |
| `Handlers.UnsendPushesEmpty` | app.py:170-181 | nothing is pushed iff no stored record carries the retracted message id |
| `Handlers.RecordedThenUnsent` | app.py:169-179 | a non-matching text recorded and then retracted is quoted back to the group |
| `Handlers.HandleTextMessage` | app.py:87-146 | a matching text gets one silent reply with the warning text and leaves the node unchanged; any other text sends nothing and updates the node as `Recorded` |
| `Handlers.HandleUnsend` | app.py:164-181 | on an empty node it raises before sending anything; for a source without a group id it raises, with nothing sent, iff some record matches, and otherwise ends normally with nothing sent; for a group source it appends exactly `UnsendPushes` of the node to the outbox; the node is never changed |

## Left out

- The `/callback` and `/get` routes: HTTP plumbing and a fixed JSON echo.
- Signature checking and event dispatch: both belong to the LINE SDK's `WebhookHandler`.
- The sticker handler: a fixed sticker reply with no logic.
- Firebase initialisation, credentials and `.env` loading: configuration and I/O.
- The `ApiClient` context that closes before the API object is used: an SDK lifetime detail. Replies and pushes are modelled only as appends to the outbox.
- Delivery failures of reply and push calls: the SDK raises them, and the model has no failure path for them.
- Concurrent webhook deliveries interleaving the read, push and delete steps: the model handles one event at a time.
- `MessageStore.MessagesRef.Record`: after seeding, the handler calls `messages_ref.get()` once for the size check and again for the order. The model reads the node once after seeding, since nothing else writes between these reads when events are handled one at a time.
- `Handlers.HandleUnsend`: the handler reads each child's `message_id` and `message_text` again by key. The model takes both from the single snapshot.
- `Handlers.UnsendPushes`: the pushes follow the key order of the stored records. `app.py` iterates over the dictionary the database read returns, and does not fix that order itself; the model picks key order.
- General Python regular expressions: only the `.*`-joined pattern of a keyword without metacharacters is modelled.
- Firebase push keys are opaque chronological strings. They are modelled as natural numbers handed out in increasing order.
