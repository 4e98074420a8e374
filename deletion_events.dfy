/**
 * The event history the handler reads to decide whether a purchase-order item
 * was deleted: the latest event by business timestamp, and the grouping of
 * process-event-directory entries by process.
 */
module DeletionEvents {
  import opened Wrappers
  import opened Text

  /** java.util.UUID, by its two 64-bit halves. */
  datatype Uuid = Uuid(mostSigBits: int, leastSigBits: int)

  /** An event of the tracked process: when it happened and its fully qualified
      type, which may be null. */
  datatype Event = Event(actualBusinessTimestamp: int, eventType: Option<string>)

  /** An entry of the process event directory; its event reference may be null. */
  datatype ProcessEventDirectory = ProcessEventDirectory(processId: Uuid, event: Option<Event>)

  const DELETION_SUFFIX := ".DeletionEvent"

  /** The type of `e`, with a null type read as the empty string. */
  function TypeOrEmpty(e: Event): string {
    match e.eventType case Some(t) => t case None => ""
  }

  /** An event whose type is not null and ends with the deletion suffix. */
  predicate IsDeletion(e: Event) {
    e.eventType.Some? && EndsWith(e.eventType.value, DELETION_SUFFIX)
  }

  /** No event of `events` is later than the one at `i`. */
  ghost predicate IsMaximal(events: seq<Event>, i: int) {
    0 <= i < |events|
    && forall j :: 0 <= j < |events| ==> events[j].actualBusinessTimestamp <= events[i].actualBusinessTimestamp
  }

  /** The one at `i` is the first of the latest events. */
  ghost predicate IsFirstLatest(events: seq<Event>, i: int) {
    IsMaximal(events, i)
    && forall j :: 0 <= j < i ==> events[j].actualBusinessTimestamp < events[i].actualBusinessTimestamp
  }

  /**
   * Stream.max with a comparator on the timestamp: a left fold that keeps the
   * element found so far unless the next one is strictly later.
   */
  function Latest(events: seq<Event>): (r: Option<Event>)
    ensures r.None? <==> events == []
    decreases |events|
  {
    if events == [] then None
    else
      var last := events[|events| - 1];
      match Latest(events[..|events| - 1])
      case None => Some(last)
      case Some(best) =>
        if best.actualBusinessTimestamp >= last.actualBusinessTimestamp then Some(best) else Some(last)
  }

  /** Among events sharing the latest timestamp, the first one in the list is chosen. */
  lemma {:induction false} LatestIsFirstLatest(events: seq<Event>)
    ensures events != [] ==> exists i :: IsFirstLatest(events, i) && Latest(events) == Some(events[i])
    decreases |events|
  {
    var n := |events|;
    if n == 0 {
    } else if n == 1 {
      assert IsFirstLatest(events, 0);
    } else {
      var prefix := events[..n - 1];
      LatestIsFirstLatest(prefix);
      var i :| IsFirstLatest(prefix, i) && Latest(prefix) == Some(prefix[i]);
      if prefix[i].actualBusinessTimestamp >= events[n - 1].actualBusinessTimestamp {
        assert IsFirstLatest(events, i);
      } else {
        assert IsFirstLatest(events, n - 1);
      }
    }
  }

  lemma FirstLatestUnique(events: seq<Event>, i: int, j: int)
    requires IsFirstLatest(events, i) && IsFirstLatest(events, j)
    ensures i == j
  {
    assert events[i].actualBusinessTimestamp == events[j].actualBusinessTimestamp;
  }

  /**
   * isDeletionLatest: the type of the latest event, or the empty string when
   * there is no event or its type is null, ends with ".DeletionEvent".
   */
  function IsDeletionLatest(events: seq<Event>): (b: bool)
    ensures events == [] ==> !b
    ensures b <==> exists i :: IsFirstLatest(events, i) && IsDeletion(events[i])
  {
    LatestIsFirstLatest(events);
    var eventType := match Latest(events) case Some(e) => TypeOrEmpty(e) case None => "";
    EndsWith(eventType, DELETION_SUFFIX)
  }

  /** A null type on the chosen latest event gives false instead of failing. */
  lemma NullTypeOfLatestIsNoDeletion(events: seq<Event>, i: int)
    requires IsFirstLatest(events, i) && events[i].eventType.None?
    ensures !IsDeletionLatest(events)
  {
    forall j | IsFirstLatest(events, j)
      ensures j == i
    {
      FirstLatestUnique(events, i, j);
    }
  }

  /** When all latest events agree on being deletions, the tie-break does not matter. */
  lemma DeletionLatestOfAnyMaximal(events: seq<Event>, i: int)
    requires IsMaximal(events, i)
    requires forall j :: IsMaximal(events, j) ==> (IsDeletion(events[j]) <==> IsDeletion(events[i]))
    ensures IsDeletionLatest(events) <==> IsDeletion(events[i])
  {
    LatestIsFirstLatest(events);
  }

  /** A deletion followed by a strictly later event of another kind is not the latest. */
  lemma LaterEventOverridesDeletion(events: seq<Event>, j: int)
    requires 0 <= j < |events| && !IsDeletion(events[j])
    requires forall k :: 0 <= k < |events| && IsDeletion(events[k]) ==>
               events[k].actualBusinessTimestamp < events[j].actualBusinessTimestamp
    ensures !IsDeletionLatest(events)
  {
  }

  /** On equal timestamps the earlier event in the list decides: the same two
      events in the other order give the other answer. */
  lemma TieGoesToEarlierEvent(deletion: Event, other: Event)
    requires deletion.actualBusinessTimestamp == other.actualBusinessTimestamp
    requires IsDeletion(deletion) && !IsDeletion(other)
    ensures IsDeletionLatest([deletion, other]) && !IsDeletionLatest([other, deletion])
  {
    assert IsFirstLatest([deletion, other], 0);
    assert IsFirstLatest([other, deletion], 0);
  }

  /** The non-null events of one process, in directory order: the reference for the grouping. */
  function EventsOf(directory: seq<ProcessEventDirectory>, id: Uuid): seq<Event>
    decreases |directory|
  {
    if directory == [] then []
    else
      var entry := directory[0];
      (if entry.processId == id && entry.event.Some? then [entry.event.value] else [])
      + EventsOf(directory[1..], id)
  }

  lemma {:induction false} EventsOfAppend(a: seq<ProcessEventDirectory>, b: seq<ProcessEventDirectory>, id: Uuid)
    ensures EventsOf(a + b, id) == EventsOf(a, id) + EventsOf(b, id)
    decreases |a|
  {
    if a == [] {
      assert a + b == b;
    } else {
      EventsOfAppend(a[1..], b, id);
      assert (a + b)[1..] == a[1..] + b;
    }
  }

  lemma EventsOfLast(directory: seq<ProcessEventDirectory>, id: Uuid)
    requires directory != []
    ensures var entry := directory[|directory| - 1];
            EventsOf(directory, id) == EventsOf(directory[..|directory| - 1], id)
            + (if entry.processId == id && entry.event.Some? then [entry.event.value] else [])
  {
    var n := |directory|;
    var entry := directory[n - 1];
    assert directory == directory[..n - 1] + [entry];
    EventsOfAppend(directory[..n - 1], [entry], id);
    assert [entry][1..] == [];
  }

  /** The group of `id`, or an empty list (Map.getOrDefault with Collections.emptyList()). */
  function GroupOf(groups: map<Uuid, seq<Event>>, id: Uuid): seq<Event> {
    if id in groups then groups[id] else []
  }

  /**
   * The stream collect: entries without an event are filtered out, the rest
   * are grouped by process id, each group listing its events in encounter order.
   */
  function GroupEvents(directory: seq<ProcessEventDirectory>): (groups: map<Uuid, seq<Event>>)
    ensures forall id :: GroupOf(groups, id) == EventsOf(directory, id)
    ensures forall id :: id in groups ==> groups[id] != []
    decreases |directory|
  {
    if directory == [] then map[]
    else
      var n := |directory|;
      var entry := directory[n - 1];
      var earlier := GroupEvents(directory[..n - 1]);
      assert forall id :: EventsOf(directory, id) == EventsOf(directory[..n - 1], id)
                          + (if entry.processId == id && entry.event.Some? then [entry.event.value] else []) by {
        forall id
          ensures EventsOf(directory, id) == EventsOf(directory[..n - 1], id)
                  + (if entry.processId == id && entry.event.Some? then [entry.event.value] else [])
        {
          EventsOfLast(directory, id);
        }
      }
      match entry.event
      case None => earlier
      case Some(e) => earlier[entry.processId := GroupOf(earlier, entry.processId) + [e]]
  }

  /**
   * updateCompletionValue reads the directory entries of one item and keeps
   * their non-null events without regrouping them.
   */
  function NonNullEvents(results: seq<ProcessEventDirectory>): (events: seq<Event>)
    ensures |events| <= |results|
    ensures forall e :: e in events <==> exists k :: 0 <= k < |results| && results[k].event == Some(e)
    decreases |results|
  {
    if results == [] then []
    else (if results[0].event.Some? then [results[0].event.value] else []) + NonNullEvents(results[1..])
  }

  /** When every entry belongs to the item, reading one item and grouping agree. */
  lemma {:induction false} SingleReadAgreesWithGrouping(results: seq<ProcessEventDirectory>, id: Uuid)
    requires forall k :: 0 <= k < |results| ==> results[k].processId == id
    ensures NonNullEvents(results) == GroupOf(GroupEvents(results), id)
    decreases |results|
  {
    if results != [] {
      SingleReadAgreesWithGrouping(results[1..], id);
      assert GroupOf(GroupEvents(results[1..]), id) == EventsOf(results[1..], id);
    }
  }
}
