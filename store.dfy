/**
 * The data layer of the event registration app: the three tables held in
 * memory, the seeding done at start-up, and the two commands behind the
 * "Register" and "Submit Feedback" buttons.
 */
module Registry {
  import opened PyBuiltins
  import opened Schema

  /** The two events inserted into an empty `events` table at start-up. */
  const SeedData: seq<EventData> := [
    EventData("Tech Conference", "A conference on latest tech trends", "2026-03-15", "10:00 AM",
              "Nairobi Convention Center", 100),
    EventData("Startup Meetup", "Networking for entrepreneurs", "2026-03-20", "2:00 PM",
              "Westlands Hub", 50)
  ]

  /** The stripped attendee fields of a registration that passed the required-field check. */
  datatype Attendee = Attendee(name: string, email: string, phone: string)

  /**
   * `register_event`'s check: strip the three fields and reject when any of
   * them is then empty, that is, when it was empty or whitespace only.
   */
  function CheckRegistration(name: string, email: string, phone: string): (r: Option<Attendee>)
    ensures r.None? <==> AllSpace(name) || AllSpace(email) || AllSpace(phone)
    ensures r.Some? ==> r.value == Attendee(Strip(name), Strip(email), Strip(phone))
  {
    var n := Strip(name);
    var e := Strip(email);
    var p := Strip(phone);
    if n == [] || e == [] || p == [] then None else Some(Attendee(n, e, p))
  }

  /** Fields that passed the check pass it again unchanged: trimming has nothing left to remove. */
  lemma CheckRegistrationStable(name: string, email: string, phone: string)
    requires !AllSpace(name) && !AllSpace(email) && !AllSpace(phone)
    ensures var a := CheckRegistration(name, email, phone).value;
            CheckRegistration(a.name, a.email, a.phone) == Some(a)
  {
    StripIdempotent(name);
    StripIdempotent(email);
    StripIdempotent(phone);
  }

  datatype FeedbackError =
    | InvalidRating          // `int()` raised `ValueError` on the rating text
    | MissingEmailOrComment  // "Email and comment required."

  /** The values a feedback row is made of, apart from its id, event and date. */
  datatype FeedbackInput = FeedbackInput(userEmail: string, rating: int, comment: string)

  datatype CheckedFeedback = Accepted(input: FeedbackInput) | Rejected(error: FeedbackError)

  /**
   * `submit_feedback`'s checks, in the source's order: the rating is parsed
   * with `int()` before the email and comment are looked at, and no range of
   * ratings is enforced.
   */
  function CheckFeedback(userEmail: string, ratingText: string, comment: string): (r: CheckedFeedback)
    ensures r == Rejected(InvalidRating) <==> ParseInt(ratingText).None?
    ensures r == Rejected(MissingEmailOrComment) <==>
              ParseInt(ratingText).Some? && (AllSpace(userEmail) || AllSpace(comment))
    ensures r.Accepted? <==> ParseInt(ratingText).Some? && !AllSpace(userEmail) && !AllSpace(comment)
    ensures r.Accepted? ==>
              r.input == FeedbackInput(Strip(userEmail), ParseInt(ratingText).value, Strip(comment))
  {
    var email := Strip(userEmail);
    var rating := ParseInt(ratingText);
    var text := Strip(comment);
    if rating.None? then Rejected(InvalidRating)
    else if email == [] || text == [] then Rejected(MissingEmailOrComment)
    else Accepted(FeedbackInput(email, rating.value, text))
  }

  /**
   * Every integer is an acceptable rating, however far outside 1 to 5, and
   * however `int()` allows it to be written: with a sign, with leading zeros,
   * with whitespace around it.
   */
  lemma AnyRatingAccepted(userEmail: string, w1: string, sign: string, z: nat, n: nat, w2: string, comment: string)
    requires !AllSpace(userEmail) && !AllSpace(comment)
    requires AllIntSpace(w1) && AllIntSpace(w2) && (sign == "" || sign == "+" || sign == "-")
    ensures CheckFeedback(userEmail, w1 + sign + Zeros(z) + NatToString(n) + w2, comment)
            == Accepted(FeedbackInput(Strip(userEmail), if sign == "-" then -(n as int) else n as int, Strip(comment)))
  {
    ParseIntValue(w1, sign, z, n, w2);
  }

  /**
   * `SELECT ... FROM events WHERE id=?` followed by `fetchone()`: the first
   * row, in table order, whose id is `id`, if there is one.
   */
  function FindEvent(events: seq<Event>, id: int): (r: Option<nat>)
    ensures r.None? <==> forall k :: 0 <= k < |events| ==> events[k].id != id
    ensures r.Some? ==> r.value < |events| && events[r.value].id == id
                        && forall k :: 0 <= k < r.value ==> events[k].id != id
    decreases |events|
  {
    if events == [] then None
    else if events[0].id == id then Some(0)
    else
      match FindEvent(events[1..], id)
      case None => None
      case Some(k) => Some(k + 1)
  }

  /** What `register_event` ends with. */
  datatype RegisterOutcome =
    | MissingFields                                  // "All fields are required."
    | Registered(attendeeName: string, eventName: string)  // the confirmation dialog
    | RegistrationOverflow  // sqlite3 refuses to bind the event id: `OverflowError`, nothing stored
    | EventLookupFailed  // `fetchone()` found no event: `[0]` on `None` raises, after the insert

  /** What `submit_feedback` ends with. */
  datatype FeedbackOutcome =
    | FeedbackRejected(error: FeedbackError)
    | FeedbackOverflow  // sqlite3 refuses to bind the rating or event id: `OverflowError`, nothing stored
    | FeedbackSubmitted

  /**
   * The open `events.db`: the three tables, each with the largest id it has
   * handed out (SQLite keeps these in `sqlite_sequence`).
   */
  class EventStore {
    var events: seq<Event>
    var registrations: seq<Registration>
    var feedback: seq<Feedback>
    var lastEventId: int
    var lastRegistrationId: int
    var lastFeedbackId: int

    ghost predicate Valid()
      reads this
    {
      AutoIds(Ids(events, EventId), lastEventId)
      && AutoIds(Ids(registrations, RegistrationId), lastRegistrationId)
      && AutoIds(Ids(feedback, FeedbackId), lastFeedbackId)
    }

    /** A new `events.db` once the three `CREATE TABLE IF NOT EXISTS` statements have run. */
    constructor Open()
      ensures Valid()
      ensures events == [] && registrations == [] && feedback == []
      ensures lastEventId == 0 && lastRegistrationId == 0 && lastFeedbackId == 0
    {
      events, registrations, feedback := [], [], [];
      lastEventId, lastRegistrationId, lastFeedbackId := 0, 0, 0;
    }

    /** `INSERT INTO events`: appends the row under the next id. */
    method InsertEvent(d: EventData) returns (id: int)
      requires Valid()
      modifies this
      ensures Valid()
      ensures id == old(lastEventId) + 1 && lastEventId == id
      ensures events == old(events) + [EventRow(id, d)]
      ensures registrations == old(registrations) && lastRegistrationId == old(lastRegistrationId)
      ensures feedback == old(feedback) && lastFeedbackId == old(lastFeedbackId)
    {
      AutoIdsAppend(Ids(events, EventId), lastEventId);
      id := lastEventId + 1;
      events := events + [EventRow(id, d)];
      lastEventId := id;
      assert Ids(events, EventId) == old(Ids(events, EventId)) + [id];
    }

    /** `INSERT INTO registrations`: appends the row under the next id. */
    method InsertRegistration(name: string, email: string, phone: string, eventId: int, date: string)
      returns (id: int)
      requires Valid()
      modifies this
      ensures Valid()
      ensures id == old(lastRegistrationId) + 1 && lastRegistrationId == id
      ensures forall k :: 0 <= k < |old(registrations)| ==> old(registrations)[k].id < id
      ensures registrations == old(registrations) + [Registration(id, name, email, phone, eventId, date)]
      ensures events == old(events) && lastEventId == old(lastEventId)
      ensures feedback == old(feedback) && lastFeedbackId == old(lastFeedbackId)
    {
      AutoIdsAppend(Ids(registrations, RegistrationId), lastRegistrationId);
      id := lastRegistrationId + 1;
      registrations := registrations + [Registration(id, name, email, phone, eventId, date)];
      lastRegistrationId := id;
      assert Ids(registrations, RegistrationId) == old(Ids(registrations, RegistrationId)) + [id];
    }

    /** `INSERT INTO feedback`: appends the row under the next id. */
    method InsertFeedback(eventId: int, userEmail: string, rating: int, comment: string, date: string)
      returns (id: int)
      requires Valid()
      modifies this
      ensures Valid()
      ensures id == old(lastFeedbackId) + 1 && lastFeedbackId == id
      ensures forall k :: 0 <= k < |old(feedback)| ==> old(feedback)[k].id < id
      ensures feedback == old(feedback) + [Feedback(id, eventId, userEmail, rating, comment, date)]
      ensures events == old(events) && lastEventId == old(lastEventId)
      ensures registrations == old(registrations) && lastRegistrationId == old(lastRegistrationId)
    {
      AutoIdsAppend(Ids(feedback, FeedbackId), lastFeedbackId);
      id := lastFeedbackId + 1;
      feedback := feedback + [Feedback(id, eventId, userEmail, rating, comment, date)];
      lastFeedbackId := id;
      assert Ids(feedback, FeedbackId) == old(Ids(feedback, FeedbackId)) + [id];
    }

    /**
     * The start-up sequence: count the events and, only when there are
     * none, insert the two seed events one after the other.
     */
    method SeedIfEmpty()
      requires Valid()
      modifies this
      ensures Valid()
      ensures events != []
      ensures old(events) == [] ==>
                events == NumberedEvents(SeedData, old(lastEventId) + 1)
                && lastEventId == old(lastEventId) + |SeedData|
      ensures old(events) != [] ==> events == old(events) && lastEventId == old(lastEventId)
      ensures registrations == old(registrations) && lastRegistrationId == old(lastRegistrationId)
      ensures feedback == old(feedback) && lastFeedbackId == old(lastFeedbackId)
    {
      var count := |events|;
      if count == 0 {
        for i := 0 to |SeedData|
          invariant Valid()
          invariant events == NumberedEvents(SeedData[..i], old(lastEventId) + 1)
          invariant lastEventId == old(lastEventId) + i
          invariant registrations == old(registrations) && lastRegistrationId == old(lastRegistrationId)
          invariant feedback == old(feedback) && lastFeedbackId == old(lastFeedbackId)
        {
          var _ := InsertEvent(SeedData[i]);
          NumberedEventsSnoc(SeedData[..i], old(lastEventId) + 1, SeedData[i]);
          assert SeedData[..i + 1] == SeedData[..i] + [SeedData[i]];
        }
        assert SeedData[..|SeedData|] == SeedData;
      }
    }

    /**
     * The "Register" button. The stripped fields are checked; on success the
     * row is stored first and the event's name is looked up afterwards, so a
     * registration for an event that does not exist is stored all the same.
     * An event id outside SQLite's integer range makes the insert raise
     * before anything is stored.
     */
    method RegisterEvent(selectedEventId: int, name: string, email: string, phone: string, now: string)
      returns (outcome: RegisterOutcome)
      requires Valid()
      modifies this
      ensures Valid()
      ensures events == old(events) && lastEventId == old(lastEventId)
      ensures feedback == old(feedback) && lastFeedbackId == old(lastFeedbackId)
      ensures outcome == MissingFields <==> CheckRegistration(name, email, phone).None?
      ensures outcome == RegistrationOverflow <==>
                CheckRegistration(name, email, phone).Some? && !FitsInteger(selectedEventId)
      ensures outcome == MissingFields || outcome == RegistrationOverflow ==>
                registrations == old(registrations) && lastRegistrationId == old(lastRegistrationId)
      ensures outcome != MissingFields && outcome != RegistrationOverflow ==>
                var a := CheckRegistration(name, email, phone).value;
                var id := old(lastRegistrationId) + 1;
                lastRegistrationId == id
                && (forall k :: 0 <= k < |old(registrations)| ==> old(registrations)[k].id < id)
                && registrations == old(registrations) + [Registration(id, a.name, a.email, a.phone, selectedEventId, now)]
      ensures outcome == EventLookupFailed <==>
                CheckRegistration(name, email, phone).Some? && FitsInteger(selectedEventId)
                && forall k :: 0 <= k < |events| ==> events[k].id != selectedEventId
      ensures outcome.Registered? ==>
                outcome.attendeeName == Strip(name)
                && exists k :: 0 <= k < |events| && events[k].id == selectedEventId
                               && outcome.eventName == events[k].name
    {
      var attendee := CheckRegistration(name, email, phone);
      if attendee.None? {
        return MissingFields;
      }
      if !FitsInteger(selectedEventId) {
        return RegistrationOverflow;
      }
      var a := attendee.value;
      var _ := InsertRegistration(a.name, a.email, a.phone, selectedEventId, now);
      var found := FindEvent(events, selectedEventId);
      if found.None? {
        outcome := EventLookupFailed;
      } else {
        outcome := Registered(a.name, events[found.value].name);
      }
    }

    /**
     * The "Submit Feedback" button: the checks of `CheckFeedback`, then one
     * appended row, unless sqlite3 cannot bind the rating or the event id as
     * an SQLite integer.
     */
    method SubmitFeedback(eventId: int, userEmail: string, ratingText: string, comment: string, now: string)
      returns (outcome: FeedbackOutcome)
      requires Valid()
      modifies this
      ensures Valid()
      ensures events == old(events) && lastEventId == old(lastEventId)
      ensures registrations == old(registrations) && lastRegistrationId == old(lastRegistrationId)
      ensures CheckFeedback(userEmail, ratingText, comment).Rejected? ==>
                outcome == FeedbackRejected(CheckFeedback(userEmail, ratingText, comment).error)
      ensures outcome == FeedbackOverflow <==>
                CheckFeedback(userEmail, ratingText, comment).Accepted?
                && !(FitsInteger(CheckFeedback(userEmail, ratingText, comment).input.rating) && FitsInteger(eventId))
      ensures outcome == FeedbackSubmitted <==>
                CheckFeedback(userEmail, ratingText, comment).Accepted?
                && FitsInteger(CheckFeedback(userEmail, ratingText, comment).input.rating) && FitsInteger(eventId)
      ensures !outcome.FeedbackSubmitted? ==> feedback == old(feedback) && lastFeedbackId == old(lastFeedbackId)
      ensures outcome.FeedbackSubmitted? ==>
                var f := CheckFeedback(userEmail, ratingText, comment).input;
                var id := old(lastFeedbackId) + 1;
                CheckFeedback(userEmail, ratingText, comment).Accepted?
                && lastFeedbackId == id
                && (forall k :: 0 <= k < |old(feedback)| ==> old(feedback)[k].id < id)
                && feedback == old(feedback) + [Feedback(id, eventId, f.userEmail, f.rating, f.comment, now)]
    {
      var checked := CheckFeedback(userEmail, ratingText, comment);
      if checked.Rejected? {
        return FeedbackRejected(checked.error);
      }
      var f := checked.input;
      if !(FitsInteger(f.rating) && FitsInteger(eventId)) {
        return FeedbackOverflow;
      }
      var _ := InsertFeedback(eventId, f.userEmail, f.rating, f.comment, now);
      outcome := FeedbackSubmitted;
    }
  }

  /**
   * The app started twice against a new `events.db`: the first start stores
   * the two seed events with ids 1 and 2, the second stores nothing.
   */
  method StartTwiceOnNewDatabase() returns (events: seq<Event>)
    ensures events == [
      Event(1, "Tech Conference", "A conference on latest tech trends", "2026-03-15", "10:00 AM",
            "Nairobi Convention Center", 100),
      Event(2, "Startup Meetup", "Networking for entrepreneurs", "2026-03-20", "2:00 PM",
            "Westlands Hub", 50)
    ]
  {
    var store := new EventStore.Open();
    store.SeedIfEmpty();
    var first := store.events;
    store.SeedIfEmpty();
    assert store.events == first;
    events := store.events;
  }
}
