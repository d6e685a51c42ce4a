# para-sar-bot poll cycle, modelled in Dafny

The bot polls a Google Sheet that collects answers to a form. It announces
each new answer in a Discord channel. When the answer carries a numeric
Discord user id and an in-game name, it also mentions that user in a second
channel. This project models the poll tick of `bot.py` and proves the
properties that keep it from re-announcing an answer already in its ledger.

- **PyDict** (`pydict.dfy`) models a Python `dict` with string keys and values
  as the sequence of its items, in insertion order. `Insert` is `d[k] = v`,
  `FromPairs` is `dict(pairs)` and `Get` is `d.get(k)`. When a key repeats,
  it stays at its first position and takes the value of its last pair. The
  lemmas prove this.
- **Sheet** (`sheet.dfy`) models `get_form_responses`. The first row of the
  sheet is the header. Every later row becomes `dict(zip(header, row))`, so
  a short row has only its leading keys and extra cells are dropped. A fetch
  exception or an empty sheet gives no responses. The Sheets API call is a
  `Fetch` input: either the cell values or `FetchError`.
- **Announce** (`announce.dfy`) holds the rules that turn a response into
  messages:
  - The broadcast lists every field whose lower-cased key is not
    `"discord id"`, in row order.
  - Mention eligibility is the test on `"ID do Discord"` and `"Nome no IC"`.
  - A `Send` is the data a message is rendered from: a `Broadcast` with its
    fields, or a `Mention` with the id and the name.

  The filter's key `"discord id"` is not the column the mention reads
  (`"ID do Discord"`). So, as written, the user id does appear in the
  broadcast. `HiddenKeys` and the scenario lemmas state this.
- **Poll** (`poll.dfy`) models `check_form_responses`.
  - The module-level set `processed_responses` is the `seen` field of class
    `Ledger`.
  - A row's identity is the response itself, i.e. `tuple(response.items())`.
  - `Ledger.Tick` is one tick. Its inputs are the two channel lookups, the
    fetch and the send outcomes.
  - Send attempt number `k` of a tick goes out unless `outcomes[k]` is
    `false`. A `false` stands for a send that raises.
  - A raised exception ends the tick (the whole loop sits in one `try`). The
    response being announced is then not committed.
  - `Tick` is proved equal to the function `TickSpec`. `TickSpec` is
    compared with a separate reference definition: `NewRows`, the unseen
    responses each taken once, and `AnnounceAll`, their announcements.
- **Scenarios** (`scenarios.dfy`) states what one tick does with form
  submissions under a three-column header.

A row is meant to be committed even when its send fails. In `bot.py`, however,
the exception leaves the loop before `processed_responses.add` (bot.py:145-146),
so the row stays uncommitted and the rest of the tick is skipped. The model
follows the code. One consequence: when a mention raises, its broadcast has
already gone out, and the next tick broadcasts the same answer again
(`Scenarios.MentionFailureRebroadcasts`).

## Model

| member | source | states |
|---|---|---|
| `PyDict.GetSpec` | bot.py:128-129 | `response.get(k)` is None exactly when `k` is not a key; otherwise it is a value stored under `k`, the only one when keys are distinct |
| `PyDict.Insert` | bot.py:95 | `d[k] = v` keeps keys distinct; an existing key keeps its position and takes `v`, with every other item unchanged; a new key is appended |
| `PyDict.FromPairs` | bot.py:95 | `dict(pairs)` never has a repeated key |
| `PyDict.GetInsert` | bot.py:95 | after `d[k] = v`, looking up `k` gives `v` and every other key's lookup is unchanged |
| `PyDict.FromPairsGet` | bot.py:95 | a dict built from pairs that repeat a key holds the value of the last such pair |
| `PyDict.FromPairsKeyOrder` | bot.py:95 | a dict's keys are the pairs' keys in order of first occurrence, each once |
| `PyDict.FromPairsDistinct` | bot.py:95 | pairs with distinct keys become a dict whose items are exactly those pairs, in order |
| `Sheet.Zip` | bot.py:95 | `zip(headers, row)` has `min(len(headers), len(row))` pairs, and pair `i` is `(headers[i], row[i])` |
| `Sheet.FormResponses` | bot.py:86-102 | there are no responses exactly when the fetch raised or the sheet has at most a header row; otherwise there is one response per data row |
| `Sheet.GetFormResponses` | bot.py:88-97 | the loop's responses equal the reference definition, in source row order, and response `i` is `dict(zip(header, values[i+1]))` |
| `Sheet.RowResponseKeys` | bot.py:92-96 | a response's keys are the first `min(len(header), len(row))` header names, each once, in header order: a short row lacks its trailing keys and extra cells are dropped |
| `Sheet.RowResponseGet` | bot.py:95 | for a repeated header name, the response holds the value of the last cell under that name |
| `Sheet.RowResponseDistinctHeaders` | bot.py:92-96 | with distinct header names, the response pairs `headers[i]` with `row[i]` for every `i` below the shorter length, and nothing else |
| `Announce.BroadcastFields` | bot.py:122 | a field is in the broadcast exactly when it is in the response and its lower-cased key is not `"discord id"`, and the broadcast has no more lines than the response has fields |
| `Announce.BroadcastFieldsAppend` | bot.py:122 | the broadcast filter distributes over concatenation, so it keeps the fields in row order |
| `Announce.HiddenKeys` | bot.py:122-128 | the filter ignores the case of the key; neither `"ID do Discord"` nor `"Nome no IC"` is hidden |
| `Announce.MentionEligibleFields` | bot.py:128-132 | a response earns a mention exactly when it has an `"ID do Discord"` field that is non-empty and all digits, and a non-empty `"Nome no IC"` field |
| `Announce.BadIdNoMention` | bot.py:132 | an empty id, or one holding a non-digit such as `"abc123"`, suppresses the mention |
| `Announce.AnnouncementFields` | bot.py:122-141 | a new response is announced by its broadcast first, listing exactly its fields whose key is not hidden; a mention follows exactly when the response has a non-empty all-digit `"ID do Discord"` field and a non-empty `"Nome no IC"` field, and it is addressed to those two values |
| `Poll.NewRowsSpec` | bot.py:119-145 | the rows a tick should announce are exactly the fetched responses not in the ledger, none of them twice |
| `Poll.AnnounceAllBroadcasts` | bot.py:119-145 | announcing a list of rows broadcasts exactly those rows, in order |
| `Poll.AnnounceAllMessages` | bot.py:122-141 | every message announcing a list of rows comes from one of them; every broadcast lists its response's shown fields; a mention is sent exactly for the eligible rows, with the row's id and name |
| `Poll.NewRowsOrder` | bot.py:119-145 | the rows a tick should announce keep the order of the fetch, each taken where it first occurs in the fetch: a response fetched twice is announced at the position of its first copy |
| `Poll.NewRowsAllSeen` | bot.py:119-121 | when every fetched response is already in the ledger, there is nothing new to announce |
| `Poll.ProcessAgainstReference` | bot.py:119-148 | the loop sends a prefix of the reference announcements, in order. It completes exactly when every attempted send goes out, and then it has announced and committed exactly the new rows. When a send raises, every earlier attempt went out, the raising attempt is the next message of the reference announcements, the response reported is the one that message announces, it is new and it is not committed, and every other announced response is |
| `Poll.TickAgainstReference` | bot.py:108-148 | a missing channel makes the tick send nothing and leave the ledger as it was; otherwise the tick agrees with the reference, as above |
| `Poll.MentionIffEligible` | bot.py:122-141 | every mention a tick sends goes to an eligible response, with that response's id and name; when no send fails, every new eligible response gets its mention |
| `Poll.AnnounceAllNoRepeats` | bot.py:119-145 | announcing distinct rows never sends the same message twice |
| `Poll.NoReannouncement` | bot.py:119-145 | no tick sends anything for a response already in the ledger, no tick broadcasts the same response twice, and no tick sends the same message twice |
| `Poll.LedgerGrows` | bot.py:105-145 | the ledger only grows, and everything a tick adds is a response it fetched |
| `Poll.TickAllDelivered` | bot.py:117-145 | when every send goes out, the tick sends the announcements of the new rows in fetch order and commits all of them |
| `Poll.EmptyFetchNoSends` | bot.py:88-119 | a fetch that raised, an empty sheet or a header-only sheet makes the tick send nothing and leave the ledger unchanged |
| `Poll.RepeatTickSilent` | bot.py:119-145 | after a completed tick, a tick over the same fetch sends nothing and leaves the ledger unchanged |
| `Poll.DuplicateInOneTick` | bot.py:119-145 | a response fetched twice in one tick is broadcast at most once: its first copy is committed before the second is checked |
| `Poll.IneligibleStillAnnounced` | bot.py:125-145 | a new response that is not eligible for a mention is still broadcast and still committed |
| `Poll.Ledger.constructor` | bot.py:105 | the ledger starts empty |
| `Poll.Ledger.Tick` | bot.py:108-148 | the new ledger, the sends performed and the way the tick ended are those of `TickSpec` from the old ledger; the ledger never shrinks |
| `Scenarios.SubmissionFields` | bot.py:122-129 | under the header `Timestamp, Nome no IC, ID do Discord`, the broadcast shows every field, the id included, and the mention reads the row's own id and name |
| `Scenarios.ValidSubmissionScenario` | bot.py:92-145 | under that header, a row with a non-empty all-digit id and a non-empty name, such as `("2024-01-01T00:00Z", "Ana", "123456")`, gives one broadcast of every field and one mention to that id and name, and is committed; the next poll of the same sheet sends nothing |
| `Scenarios.MentionFailureRebroadcasts` | bot.py:119-146 | for a valid row, a first poll whose mention raises sends the broadcast, reports the failure and commits nothing; the next poll broadcasts the same row again, then sends its mention and commits it |
| `Scenarios.EmptyIdScenario` | bot.py:92-145 | under the same header, a row with an empty id, such as `("2024-01-01T00:01Z", "Bruno", "")`, gives one broadcast and no mention, and the row is still committed |

## Left out

- Configuration and credentials are not modelled, because they are startup plumbing. This covers `config.json`, the environment variables, the private-key newline repair and the `exit(1)` calls (bot.py:15-40).
- The Google service-account setup and the Sheets API calls are not modelled, because they go through a foreign library (bot.py:42-66, 81-86). Their result is the `Fetch` input. Any exception in them, including a missing first sheet, is `FetchError`.
- The Discord client is not modelled. This covers its setup, `get_channel`, `Embed`, `channel.send`, `on_ready` and `bot.run` (bot.py:68-71, 110-111, 124-125, 141, 151-158). Channel lookups are two booleans. Whether a send raises is given per attempt by `outcomes`.
- The 5-second `tasks.loop` and the `is_running` guard are not modelled, because they belong to the event loop (bot.py:107, 154-155). One tick is one call of `Ledger.Tick`.
- The random emoji per broadcast line is not modelled (bot.py:74-76). It has no effect on which messages are sent.
- The message texts are not modelled: the embed title and line format, and the mention's fixed template, emblem and contact id (bot.py:122-124, 130, 134-140). A broadcast carries its fields and a mention carries the id and the name.
- Logging and tracebacks are not modelled, because they have no effect on state or sends.
- `Announce.MentionEligibleFields`: `str.isdigit` is modelled as ASCII `'0'`-`'9'`. Python also accepts other Unicode digits, such as superscripts and other scripts' digits.
- `Announce.BroadcastFields`: `str.lower` is modelled on ASCII letters only. The model leaves non-ASCII letters as they are.
