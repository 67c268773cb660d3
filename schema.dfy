/**
 * The three tables of `events.db`, one row datatype each, and the
 * auto-increment discipline of their `id` columns.
 */
module Schema {

  /** The values one `INSERT INTO events` supplies: every column but `id`. */
  datatype EventData = EventData(
    name: string, description: string, date: string, time: string, venue: string, capacity: int)

  /** A row of `events`. */
  datatype Event = Event(
    id: int, name: string, description: string, date: string, time: string, venue: string, capacity: int)

  /** A row of `registrations`. */
  datatype Registration = Registration(
    id: int, name: string, email: string, phone: string, eventId: int, registrationDate: string)

  /** A row of `feedback`. */
  datatype Feedback = Feedback(
    id: int, eventId: int, userEmail: string, rating: int, comment: string, feedbackDate: string)

  /**
   * The values an SQLite INTEGER column can hold: signed 64-bit integers.
   * Python's sqlite3 raises `OverflowError` when asked to bind an `int`
   * outside this range, and then nothing is stored.
   */
  predicate FitsInteger(n: int) {
    -0x8000_0000_0000_0000 <= n < 0x8000_0000_0000_0000
  }

  /** The row stored when `d` is inserted and the database assigns it `id`. */
  function EventRow(id: int, d: EventData): Event {
    Event(id, d.name, d.description, d.date, d.time, d.venue, d.capacity)
  }

  /** The ids of a table's rows, in row order; `id` reads a row's id. */
  function Ids<R>(t: seq<R>, id: R -> int): (ids: seq<int>)
    ensures |ids| == |t| && forall k :: 0 <= k < |t| ==> ids[k] == id(t[k])
  {
    seq(|t|, k requires 0 <= k < |t| => id(t[k]))
  }

  function EventId(e: Event): int { e.id }
  function RegistrationId(r: Registration): int { r.id }
  function FeedbackId(f: Feedback): int { f.id }

  /**
   * The ids of an `INTEGER PRIMARY KEY AUTOINCREMENT` column in a table
   * nothing is ever deleted from: positive, strictly increasing in row
   * order, and none above `last`, the largest id the table has handed out.
   */
  predicate AutoIds(ids: seq<int>, last: int) {
    0 <= last
    && (forall k :: 0 <= k < |ids| ==> 1 <= ids[k] <= last)
    && (forall k, m :: 0 <= k < m < |ids| ==> ids[k] < ids[m])
  }

  /** The next id handed out, `last + 1`, keeps the column well formed. */
  lemma AutoIdsAppend(ids: seq<int>, last: int)
    requires AutoIds(ids, last)
    ensures AutoIds(ids + [last + 1], last + 1)
    ensures forall k :: 0 <= k < |ids| ==> ids[k] < last + 1
  {
  }

  /** Auto-assigned ids are pairwise distinct. */
  lemma AutoIdsDistinct(t: seq<Event>, last: int)
    requires AutoIds(Ids(t, EventId), last)
    ensures forall k, m :: 0 <= k < m < |t| ==> t[k].id != t[m].id
  {
    forall k, m | 0 <= k < m < |t| ensures t[k].id != t[m].id {
      assert Ids(t, EventId)[k] < Ids(t, EventId)[m];
    }
  }

  /** The rows `executemany` stores for `rows` when the first of them gets id `first`. */
  function NumberedEvents(rows: seq<EventData>, first: int): (t: seq<Event>)
    ensures |t| == |rows|
    decreases |rows|
  {
    if rows == [] then [] else [EventRow(first, rows[0])] + NumberedEvents(rows[1..], first + 1)
  }

  /** Row `k` of the inserted block is `rows[k]` with id `first + k`. */
  lemma {:induction false} NumberedEventsAt(rows: seq<EventData>, first: int, k: int)
    requires 0 <= k < |rows|
    ensures NumberedEvents(rows, first)[k] == EventRow(first + k, rows[k])
    decreases |rows|
  {
    if k > 0 {
      NumberedEventsAt(rows[1..], first + 1, k - 1);
    }
  }

  /** Inserting one more row extends the block by that row, with the next id. */
  lemma NumberedEventsSnoc(rows: seq<EventData>, first: int, d: EventData)
    ensures NumberedEvents(rows + [d], first) == NumberedEvents(rows, first) + [EventRow(first + |rows|, d)]
  {
    var lhs := NumberedEvents(rows + [d], first);
    var rhs := NumberedEvents(rows, first) + [EventRow(first + |rows|, d)];
    forall k | 0 <= k < |lhs| ensures lhs[k] == rhs[k] {
      NumberedEventsAt(rows + [d], first, k);
      if k < |rows| {
        NumberedEventsAt(rows, first, k);
      }
    }
  }
}
