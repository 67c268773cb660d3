/**
 * The data side of `refresh_events_list`: the event cards and the two
 * selection menus (one on the registration form, one on the feedback form)
 * rebuilt from the `events` table.
 */
module Listing {
  import opened PyBuiltins
  import opened Schema
  import opened Registry

  /** One row of `SELECT id, name, date, time, venue FROM events`: what an event card shows. */
  datatype EventSummary = EventSummary(id: int, name: string, date: string, time: string, venue: string)

  /** A menu entry: the value the form reads back, and the label shown. */
  datatype MenuOption = MenuOption(key: string, text: string)

  function Summary(e: Event): EventSummary {
    EventSummary(e.id, e.name, e.date, e.time, e.venue)
  }

  /** The menu entry for an event: its id as text, labelled with its name. */
  function OptionFor(s: EventSummary): MenuOption {
    MenuOption(IntToString(s.id), s.name)
  }

  /** The value of an event's menu entry reads back, through `int()`, as the event's id. */
  lemma OptionKeyParsesToId(s: EventSummary)
    ensures ParseInt(OptionFor(s).key) == Some(s.id)
  {
    ParseIntRoundTrip(s.id);
  }

  /** Events with distinct ids get menu entries with distinct values. */
  lemma OptionKeysDistinct(events: seq<Event>)
    requires forall k, m :: 0 <= k < m < |events| ==> events[k].id != events[m].id
    ensures forall k, m :: 0 <= k < m < |events| ==>
              OptionFor(Summary(events[k])).key != OptionFor(Summary(events[m])).key
  {
    forall k, m | 0 <= k < m < |events|
      ensures OptionFor(Summary(events[k])).key != OptionFor(Summary(events[m])).key
    {
      if OptionFor(Summary(events[k])).key == OptionFor(Summary(events[m])).key {
        IntToStringInjective(events[k].id, events[m].id);
      }
    }
  }

  /** The controls `refresh_events_list` fills. */
  class EventListing {
    var cards: seq<EventSummary>
    var eventOptions: seq<MenuOption>
    var feedbackOptions: seq<MenuOption>

    constructor ()
      ensures cards == [] && eventOptions == [] && feedbackOptions == []
    {
      cards, eventOptions, feedbackOptions := [], [], [];
    }

    /**
     * Clears the three lists and appends, for every event in table order,
     * its card and its entry in each menu. The result depends only on the
     * table, so refreshing again never accumulates entries.
     */
    method Refresh(store: EventStore)
      modifies this
      ensures |cards| == |store.events| && |eventOptions| == |store.events|
      ensures forall k :: 0 <= k < |store.events| ==>
                cards[k] == Summary(store.events[k]) && eventOptions[k] == OptionFor(cards[k])
      ensures feedbackOptions == eventOptions
      ensures store.Valid() ==>
                forall k, m :: 0 <= k < m < |eventOptions| ==> eventOptions[k].key != eventOptions[m].key
    {
      var rows := store.events;
      cards := [];
      eventOptions := [];
      feedbackOptions := [];
      for i := 0 to |rows|
        invariant |cards| == i && |eventOptions| == i
        invariant forall k :: 0 <= k < i ==> cards[k] == Summary(rows[k]) && eventOptions[k] == OptionFor(cards[k])
        invariant feedbackOptions == eventOptions
      {
        var s := Summary(rows[i]);
        cards := cards + [s];
        eventOptions := eventOptions + [OptionFor(s)];
        feedbackOptions := feedbackOptions + [OptionFor(s)];
      }
      if store.Valid() {
        AutoIdsDistinct(rows, store.lastEventId);
        OptionKeysDistinct(rows);
      }
    }
  }
}
