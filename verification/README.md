# hackernewsbot story store and poll loop, in Dafny

This project models the two pieces of the Hacker News bot that carry logic:

- **The story repository** (`storydb/storydb.py`). Three relational tables
  share a database-generated `index`: `story(index, id)`,
  `story_submission_time(index, time)` and
  `story_processing_status(index, processed)`. The store is the immutable
  value `StoryDb.Db`, one sequence of rows per table. Each `StoryRepository`
  method is a pure function of that value:
  - `insert_story` is `InsertStory`;
  - `has_story` is `HasStory`;
  - `mark_story` is `MarkStory`;
  - `delete_stale_stories` is `DeleteStaleStories`;
  - `get_pending_stories` is `GetPendingStories`.

  Tables are unordered. The contracts of insertion and deletion therefore
  talk about membership and the number of copies of each row, not about
  positions. `MarkStory` rewrites flags in place, so its contract follows the
  status table row by row. `StoryDb.Valid` is the store invariant: the three
  tables hold the same indices, each at most once, and each story id is
  stored at most once.
- **The poll loop** (`hackernewsbot.py`). `run` folds
  `register_story_if_not_exists` over the polled id list against one table
  `stories(id, time)` (`Poller.Run`, `Poller.Register`).
  `Story._init_with_api_response` is a pure decode from the item object
  (`StoryItem.Decode`). The `Story` properties `ident`, `time`, `comments`,
  `score` and `title` are the fields of `StoryItem.Story`.

Modelling choices:

- Times and ages are integer Unix seconds. `get_pending_stories(age)` at
  wall-clock time `now` keeps the stories submitted at or before `now - age`.
- The serial generator of `index` is not modelled. The index it would hand
  out is the parameter `k` of `InsertStory`, which must not already be in use
  in `story`.
- The model assumes that the `story.id` column is unique. The table
  definitions are not in the repository, so this is an assumption of the
  model, not something the code shows. Under it, inserting an id a second
  time fails with `UniqueViolation` and changes nothing.
- `mark_story` and `get_pending_stories` name columns that their tables do
  not have (see Findings). The model joins through `index` in both, which is
  what the statements evidently mean.
- `delete_stale_stories` tests the largest index with Python's `not`. That
  test is true both for NULL (an empty table) and for the value 0, and in
  both cases nothing is deleted. The model keeps this.
- The HTTP fetch of an item, together with its JSON decoding, is the
  parameter `fetch: int -> Option<Response>`. `None` stands for three cases:
  a failed request, a body that does not parse, and a body that parses to
  something other than an object, such as `null`, where `response['time']`
  raises `TypeError`. The list from `query_new_story_idents` is the
  parameter `idents`.
- An exception raised for one id inside `run` is a `Failure`. `Run` logs it
  as an `(id, error)` pair in `Report.errors` and goes on with the next id,
  with the table unchanged.

## Model

| member | source | states |
|---|---|---|
| `StoryDb.HasStory` | storydb/storydb.py:32-37 | true exactly when some `story` row carries the id |
| `StoryDb.InsertStory` | storydb/storydb.py:20-30 | with a fresh index `k`, adds exactly one row to each table, `(k, id)`, `(k, time)` and `(k, false)`, and keeps every other row; fails with `UniqueViolation` and changes nothing exactly when the id is already stored |
| `StoryDb.MarkStory` | storydb/storydb.py:39-46 | changes only the `processed` flag, and only on the status rows whose index `story` links to the id; ids, indices and times are untouched; an unknown id leaves the store unchanged |
| `StoryDb.MaxIndex` | storydb/storydb.py:50-53 | NULL exactly on an empty table, otherwise an index of the table that is at least every index in it |
| `StoryDb.DeleteThrough` | storydb/storydb.py:57-61 | in each table, a row with index above the threshold keeps all its copies and a row at or below it keeps none; no row is added |
| `StoryDb.StaleThreshold` | storydb/storydb.py:50-56 | no deletion exactly when the table is empty or its largest index is 0; otherwise the threshold is the largest index minus `numkept` |
| `StoryDb.DeleteStaleStories` | storydb/storydb.py:48-62 | no-op on an empty table or a largest index of 0; otherwise, in every table, a row with index above `max - numkept` keeps all its copies and any other row is deleted |
| `StoryDb.PendingJoin` | storydb/storydb.py:66-72 | an id is returned exactly when one of its `story` rows has, at the same index, a submission time at or before the cutoff and an unprocessed status row |
| `StoryDb.GetPendingStories` | storydb/storydb.py:64-73 | returns exactly the ids that are unprocessed and were submitted at least `age` seconds before `now` |
| `StoryDbProperties.InsertThenHasStory` | storydb/storydb.py:20-37 | after `insert_story(id, t)`, `has_story` is true for `id` and for the ids it was true for before, and for nothing else |
| `StoryDbProperties.InsertPreservesValid` | storydb/storydb.py:20-29 | `insert_story` keeps the three tables in lockstep and the ids unique, and adds index `k` to the index set |
| `StoryDbProperties.InsertThenPending` | storydb/storydb.py:20-29 | in a valid store, a freshly inserted id is pending exactly when its submission time is at least `age` before `now` |
| `StoryDbProperties.MarkPreservesValid` | storydb/storydb.py:39-46 | `mark_story` keeps the lockstep invariant |
| `StoryDbProperties.MarkThenNotPending` | storydb/storydb.py:39-46 | after `mark_story(id, true)`, `id` is not pending for any age or time |
| `StoryDbProperties.MarkKeepsOthers` | storydb/storydb.py:39-46 | in a valid store, marking one id leaves every other id's pending status unchanged |
| `StoryDbProperties.DeletePreservesValid` | storydb/storydb.py:48-62 | `delete_stale_stories` keeps the lockstep invariant and unique ids |
| `StoryDbProperties.DeleteKeepsTopWindow` | storydb/storydb.py:53-61 | with distinct indices and a largest index `m` other than 0, the surviving indices lie in `(m - n, m]`, every old row in that window survives, at most `n` stories remain (none when `n < 0`), and no older index is left in any of the three tables |
| `StoryDbAsWritten.MarkStoryAsWritten` | storydb/storydb.py:41-45 | the update as written always fails, because it filters the status table by an `id` column it does not have |
| `StoryDbAsWritten.GetPendingStoriesAsWritten` | storydb/storydb.py:66-72 | the query as written always fails, because it reads a `time` column that `story` does not have |
| `StoryDbAsWritten.MarkAsWrittenLeavesStoryPending` | storydb/storydb.py:39-46 | for a store holding story 101, marking as written fails and 101 stays pending; the corrected `MarkStory` empties the pending list |
| `StoryDbAsWritten.PendingAsWrittenFailsOnStoredStory` | storydb/storydb.py:64-73 | for the same store, the query as written fails where the corrected query returns `[101]` |
| `StoryItem.Decode` | hackernewsbot.py:64-68 | fails with `MissingKey("time")` when `time` is absent; succeeds exactly when `time` is an integer from -62135596800 to 253402300799 (years 1 to 9999, the range `datetime.fromtimestamp` accepts); any other `time` value fails with `NotATimestamp`; the story keeps the requested id and the item's `time` |
| `StoryItem.DecodeEncode` | hackernewsbot.py:64-88 | for a story whose time `datetime` can hold, decoding the item object that describes it gives the story back, so every present field is copied verbatim and exposed unchanged by the properties |
| `StoryItem.DecodeDefaults` | hackernewsbot.py:65-68 | an item with only an in-range `time` decodes with `kids` empty and `score` and `title` None |
| `StoryItem.DecodeFields` | hackernewsbot.py:64-88 | each optional field is the item's value when present and its default when absent; other keys of the item do not affect the result |
| `Poller.FetchStory` | hackernewsbot.py:58-62 | a failed fetch is `FetchFailed`; a fetched item succeeds exactly when it decodes, the story is the decoded item under the requested id, and a decode error comes back as `Undecodable` with that error |
| `PollerProperties.FetchStoryEncoded` | hackernewsbot.py:58-68 | fetching, for a story's id, the item object that describes the story yields that story |
| `Poller.Register` | hackernewsbot.py:45-52 | an id already in the table leaves it unchanged; otherwise success exactly when the fetch succeeds, adding the one row `(id, fetched time)` at the end; a failure carries the fetch's error |
| `Poller.Run` | hackernewsbot.py:35-43 | existing rows are never changed or removed; an id ends up stored exactly when it was stored before, or was polled and its fetch succeeds; with no duplicate ids before, there are none after, even if the poll list repeats ids or names stored ones |
| `PollerProperties.RunNewRows` | hackernewsbot.py:37-52 | every row a run appends is a polled id that was not stored, carrying the time its fetched item reports |
| `PollerProperties.RunErrors` | hackernewsbot.py:37-41 | every logged error is for a polled id that was not stored and whose fetch failed with exactly that error |
| `PollerProperties.RunAppendTable` | hackernewsbot.py:37-41 | polling `a + b` ends in the table reached by polling `a` and then `b` |
| `PollerProperties.RunAppendErrors` | hackernewsbot.py:37-41 | polling `a + b` logs the errors of `a`, then those of `b`: ids are handled in order and a failure does not stop the rest |
| `PollerProperties.RunSkipsFailure` | hackernewsbot.py:37-41 | a new id whose fetch fails adds no row; its error is logged and the rest of the list is handled as if the id were absent |
| `PollerProperties.RunStable` | hackernewsbot.py:45-49 | when every polled id is stored or unfetchable, the table is unchanged |
| `PollerProperties.Repoll` | hackernewsbot.py:35-52 | when the list is polled again and the items may answer differently, the second poll adds only ids that were polled, were not stored before, and failed to fetch or decode the first time; if every item that can be fetched now could be fetched then, the second poll adds nothing |
| `PollerProperties.RunIdempotent` | hackernewsbot.py:35-52 | when every item answers as it did the first time, polling the same list again adds nothing |
| `PollerProperties.PollExampleFirst` | hackernewsbot.py:35-52 | polling `[101, 102]` on an empty table stores both |
| `PollerProperties.PollExampleSecond` | hackernewsbot.py:35-52 | a later poll of `[101, 103]` stores only 103 |

## Left out

- `connect_to_postgres` and `connect_to_story_database` (connection setup from a URL) are not modelled. They are psycopg2 glue. The first also reads an undefined name `uri` where its parameter is `url`.
- `main`, the SIGINT handler, the logger and the `DATABASE_URL` setting are process glue and are not modelled.
- The HTTP requests in `query_new_story_idents` and `Story.__init__`, and their JSON parsing, are the parameters `idents` and `fetch`.
- `hackernewsbot/poster.py` (OAuth and status posting) is not modelled. It is HTTP calls plus a float age computed from the wall clock.
- Transactions and commits are not modelled. PostgreSQL aborts a transaction after a failed statement, and that is not modelled either. In `run` only a fetch or decode failure is modelled, and none of those is a database statement.
- The serial generator of `index` is the parameter `k` of `InsertStory`.
- Timezone-aware `datetime` values are integer Unix seconds. PostgreSQL `interval` arithmetic is integer subtraction.
- An item `time` that is a JSON float or a boolean is not modelled. `StoryItem.Value` has integers, integer lists, text and null only, and `Decode` rejects every other `time` value with `NotATimestamp`.
- The `stories` table used by `run` has no uniqueness constraint in the model. Its definition is not in the repository, and `register_story_if_not_exists` checks for the id itself.
- StoryDb.PendingJoin: the contract says which ids are returned, not how often. The function returns one entry per matching row triple, as the SQL join does, but no contract states that count.
- StoryDb.GetPendingStories: the contract says which ids are returned, not how often. In a valid store each pending id appears once, but no lemma states it.
- Poller.Run: `fetch` gives one answer per id for the whole poll. An id that appears twice in one poll list therefore cannot fail the first time and succeed the second, although two real requests could. Between polls, `PollerProperties.Repoll` lets the answers change.

## Findings

| source | as written | input that shows it | evidently intended | confidence | as-written member | corrected member |
|---|---|---|---|---|---|---|
| storydb/storydb.py:41-45 | `update story_processing_status ... where id = %(id)s`, but that table's rows are written only with `(index, processed)` | `insert_story(101, t)` then `mark_story(101)`: the update names an undefined column, raises, and 101 stays pending | update the status rows whose index `story` links to the id; marked ids are then never pending (`StoryDbProperties.MarkThenNotPending`) | medium, not executed: the table definitions are not in the repository and are read off the insert statements | `StoryDbAsWritten.MarkAsWrittenLeavesStoryPending` | `StoryDb.MarkStory` |
| storydb/storydb.py:66-72 | `story.time <= now() - interval %(age)s`, but submission times are stored in `story_submission_time` | `insert_story(101, 0)` then `get_pending_stories()`: the query names an undefined column and raises | read the time from `story_submission_time` joined on index; the result is exactly the unprocessed, old-enough ids (`StoryDb.GetPendingStories`) | medium, not executed: the table definitions are not in the repository and are read off the insert statements | `StoryDbAsWritten.PendingAsWrittenFailsOnStoredStory` | `StoryDb.GetPendingStories` |
