# Smart Event Registration: a Dafny model of its data layer

The app keeps three SQLite tables in `events.db`: `events`, `registrations` and
`feedback`. On start-up it seeds two events, but only if the events table is empty.
Two form callbacks add rows. `register_event` strips the attendee's name, email and
phone, refuses if any of them is then empty, inserts a registration and only then
looks up the event's name for the confirmation. `submit_feedback` parses the rating
with `int()`, strips the email and comment, refuses if either is empty, and inserts
a feedback row. `refresh_events_list` rebuilds the event cards and the two event
menus from the events table.

The model keeps the tables in memory, as `seq` fields of the class
`Registry.EventStore`. Each table carries the largest id it has handed out
(SQLite's `sqlite_sequence`), and `Valid()` says every table's ids are positive,
strictly increasing and no larger than that counter. The Python built-ins the code
depends on are Dafny functions in `PyBuiltins`: `str.strip()`, `int()` on a
string, and `str()` on an integer.

Files:

- `pybuiltins.dfy`: module `PyBuiltins`. Whitespace as `str.isspace()` defines it, `Strip`; the narrower whitespace `int()` skips, `ParseInt`; one leading and one trailing scan, each taking the whitespace test as a parameter; `IntToString`; and their lemmas.
- `schema.dfy`: module `Schema`. The row datatypes of the three tables and the auto-increment discipline.
- `store.dfy`: module `Registry`. The seed rows, the pure checks of both forms, the event lookup, and the `EventStore` class with seeding, the inserts and the two commands.
- `listing.dfy`: module `Listing`. Event summaries, menu entries, and the `EventListing` class whose `Refresh` rebuilds the cards and both menus.

Consequences of the code that the model keeps as they are:

- `register_event` never checks that the event exists. The row is stored first, and the name lookup then fails: `fetchone()` returns `None` and indexing it raises. The model returns `EventLookupFailed` in that case, after the row has been appended.
- `submit_feedback` calls `int()` before it looks at the email and comment. A rating that is not an integer makes `int()` raise `ValueError`, which escapes the callback: no status text is set and nothing is stored, even when the email or comment is empty too. The model names that outcome `InvalidRating`, and it is the only one `CheckFeedback` gives for such a rating.
- `int()` accepts an integer of any size up to the interpreter's digit limit (see "## Left out"), and the code adds no range check (`AnyRatingAccepted`). The limit comes from sqlite3: binding a Python `int` outside the signed 64-bit range raises `OverflowError`, so such a rating, or such an event id, stores no row. The model returns `FeedbackOverflow` or `RegistrationOverflow` in those cases. Every rating inside that range is stored as given, including those outside 1–5.
- Nothing compares registrations with an event's capacity.
- `int()` skips less whitespace than `str.strip()` does: it treats the four information separators U+001C–U+001F as errors, although `str.isspace()` counts them as whitespace. `ParseInt` follows `int()`, `Strip` follows `str.strip()`.

Neither an existence check before a registration is inserted nor a 1–5 rating
range appears in the code, so neither appears in the model.

## Model

| member | source | states |
|---|---|---|
| `PyBuiltins.Strip` | Event.py:76-78 | The stripped text neither starts nor ends with whitespace. It is empty exactly when the input is empty or whitespace only. |
| `PyBuiltins.StripMeetsSpec` | Event.py:76-78 | The stripped text is a slice of the input, with only whitespace removed before and after it. |
| `PyBuiltins.StripDeterminedBySpec` | Event.py:76-78 | Only one text fits that description, so `str.strip()` is pinned down by it. |
| `PyBuiltins.StripIdempotent` | Event.py:76-78 | Stripping twice gives the same text as stripping once. |
| `PyBuiltins.ParseInt` | Event.py:96 | `int()` fails on text made only of the whitespace it skips. |
| `PyBuiltins.ParseIntOfParts` | Event.py:96 | A literal (an optional sign and at least one decimal digit) with `int()`'s whitespace on both sides is accepted, with the literal's value. |
| `PyBuiltins.ParseIntSplits` | Event.py:96 | Conversely, every text `int()` accepts is `int()`'s whitespace, a literal and `int()`'s whitespace again, and its value is the literal's. |
| `PyBuiltins.ParseIntRefusesSeparators` | Event.py:96 | A text holding any of U+001C–U+001F anywhere is refused by `int()`, although `str.isspace()` counts them as whitespace. |
| `PyBuiltins.ParseIntIgnoresSurroundingSpace` | Event.py:96 | Adding `int()`'s whitespace on either side of any text changes neither whether `int()` accepts it nor the value. |
| `PyBuiltins.ParseIntValue` | Event.py:96 | `int()` of whitespace, a sign (none, `+` or `-`), any number of zeros, the digits of `n` and whitespace is `n`, negated after `-`. |
| `PyBuiltins.ParseIntShape` | Event.py:96 | Every accepted text has exactly that form, and its value is the one `ParseIntValue` gives. Together the two fix what `int()` returns on every text. |
| `PyBuiltins.DigitsShape` | Event.py:96 | Every run of decimal digits is some zeros followed by the digits `str()` prints for its value. |
| `PyBuiltins.IntToString` | Event.py:127 | `str(n)` is never empty, neither starts nor ends with whitespace, and starts with `-` exactly when `n` is negative. After that optional `-` come decimal digits only, with no leading zero unless the text is `0` (so never `+`). With `ParseIntRoundTrip` this fixes the text exactly. |
| `PyBuiltins.NatToStringValue` | Event.py:127 | The decimal digits that `str()` prints for a natural number evaluate back to that number. |
| `PyBuiltins.ParseIntRoundTrip` | Event.py:127 | `int(str(n)) == n` for every integer `n`. |
| `PyBuiltins.IntToStringInjective` | Event.py:127 | Different integers print as different texts. |
| `Schema.AutoIdsAppend` | Event.py:24 | Handing out `last + 1` keeps the ids positive, strictly increasing and bounded by the counter. The new id is above every existing one. |
| `Schema.AutoIdsDistinct` | Event.py:12 | No two rows of the events table share an id. |
| `Schema.NumberedEvents` | Event.py:52 | An `executemany` block holds one row per parameter tuple; what each row holds is stated by `NumberedEventsAt`. |
| `Schema.NumberedEventsAt` | Event.py:52 | Row `k` of an `executemany` block is the `k`-th parameter tuple, with id `first + k`. |
| `Schema.NumberedEventsSnoc` | Event.py:52 | Inserting one more tuple extends the block by that row, under the next id. |
| `Registry.CheckRegistration` | Event.py:76-82 | The check rejects exactly when the name, email or phone is empty or whitespace only. When it accepts, it yields the three stripped fields. |
| `Registry.CheckRegistrationStable` | Event.py:76-78 | Fields that pass the check (none is whitespace only) pass it again unchanged, so a stored row reads back as the trimmed input. |
| `Registry.CheckFeedback` | Event.py:95-101 | A rating `int()` refuses gives `InvalidRating`, whatever the other fields hold, and only such a rating does. With an integer rating, the check rejects for a missing email or comment exactly when one of them is whitespace only. It accepts exactly when `int()` accepts the rating and neither the email nor the comment is whitespace only, and then yields the stripped email and comment and the parsed rating. |
| `Registry.AnyRatingAccepted` | Event.py:96-102 | With a non-blank email and comment, every rating text `int()` accepts (whitespace, a sign, leading zeros, the digits of any integer, whitespace) is accepted, with its value, inside or outside 1–5. By `ParseIntShape` this covers every accepted text. |
| `Registry.FindEvent` | Event.py:87-88 | The lookup finds nothing exactly when no event has the id. Otherwise it returns the first row, in table order, with that id. |
| `Registry.EventStore.Open` | Event.py:6-42 | A new database: all three tables empty, no ids handed out yet. |
| `Registry.EventStore.InsertEvent` | Event.py:52 | One event row is appended under the next id. Nothing else changes. |
| `Registry.EventStore.InsertRegistration` | Event.py:83-84 | One registration row is appended under an id above every existing one. Nothing else changes. |
| `Registry.EventStore.InsertFeedback` | Event.py:102-103 | One feedback row is appended under an id above every existing one. Nothing else changes. |
| `Registry.EventStore.SeedIfEmpty` | Event.py:46-53 | An empty events table receives the two seed events, in order, under the next two ids. A non-empty one is left unchanged, so running start-up again adds nothing. The other tables never change. |
| `Registry.EventStore.RegisterEvent` | Event.py:74-91 | If a stripped field is empty, the outcome is `MissingFields` and every table is unchanged. Otherwise, if the event id is outside SQLite's 64-bit integer range, the insert raises, the outcome is `RegistrationOverflow` and every table is unchanged. Otherwise exactly one row is appended, holding the stripped fields, the selected event id and the timestamp, under a fresh id. The row is appended whether or not the event exists. The outcome is `EventLookupFailed` exactly when no event has that id; otherwise the confirmation carries the attendee's stripped name and that event's name. |
| `Registry.EventStore.SubmitFeedback` | Event.py:93-109 | A rejection leaves every table unchanged and reports the reason from `CheckFeedback`. An accepted submission whose rating or event id lies outside SQLite's 64-bit integer range gives `FeedbackOverflow` and leaves every table unchanged. The outcome is `FeedbackSubmitted` exactly when the submission is accepted and both values fit. It then appends exactly one row, holding the stripped email and comment, the parsed rating, the event id and the timestamp, under a fresh id. |
| `Registry.StartTwiceOnNewDatabase` | Event.py:46-53 | Two start-ups against a new database leave exactly "Tech Conference" (id 1, capacity 100) followed by "Startup Meetup" (id 2, capacity 50), with their listed fields. |
| `Listing.OptionKeyParsesToId` | Event.py:127 | The value of an event's menu entry reads back through `int()` as the event's id. |
| `Listing.OptionKeysDistinct` | Event.py:127-128 | Events with different ids get menu entries with different values. |
| `Listing.EventListing.constructor` | Event.py:138-153 | The cards and both menus start empty. |
| `Listing.EventListing.Refresh` | Event.py:111-128 | There is one card and one entry in each menu per event, in table order. Each entry's value is `str(id)` and its label is the name. The two menus are identical. The result depends only on the table, so refreshing again never accumulates entries. Over a valid store, no two entries share a value. |

## Left out

- The Flet user interface: page set-up, text fields, the confirmation dialog (Event.py:62-72), status texts, form resets (Event.py:105-108), `page.update()` and the `ft.app` bootstrap. These are presentation only. The model's outcomes stand in for what the dialog and status texts show.
- Card layout: the `"{date} at {time}"` and `"Venue: {venue}"` texts and the card styling (Event.py:118-126). A card is modelled as the summary row it displays.
- The sqlite3 connection, cursor and `commit()` calls, and storage failures. The tables are in-memory sequences. A later start of the app against the same file is the same `EventStore` object seen again.
- `datetime.now().strftime(...)` (Event.py:84, 103): the timestamp is an opaque string parameter, `now`.
- The conversion `int(dropdown.value)` of the selected menu entry (Event.py:75, 94), and its failure when nothing is selected: the event id is an integer parameter. `OptionKeyParsesToId` shows that every entry's value converts back to its event's id.
- `PyBuiltins.ParseInt` does not model the underscores between digits, or the non-ASCII decimal digits, that Python's `int()` also accepts. It handles plain ASCII literals only.
- `PyBuiltins.ParseInt` does not model the limit on the number of digits that Python 3.11 and later put on `int()` of a string (4300 by default, `sys.int_info.default_max_str_digits`, configurable and absent before 3.11): it accepts literals of any length. The limit depends on the interpreter's version and settings, which the code does not fix.
- SQLite's `sqlite_sequence` rule (max of the counter and the largest rowid, plus one) is modelled as counter plus one. The two agree because nothing is ever deleted. The 2^63 id limit is not modelled.
- Column affinity and `NULL` values: every TEXT column is a string and every INTEGER column an integer. The code only ever inserts values of those types, and the 64-bit range of an INTEGER column is modelled by `FitsInteger`, with the overflow outcomes above.
- `Listing.EventListing.Refresh`: "refreshing again never accumulates" is carried by its postconditions, which speak only of the table and not of the old lists. There is no separate lemma about two calls, because a lemma cannot call a method.
- Event existence, capacity and rating-range checks: the code performs none of them, so neither does the model.
