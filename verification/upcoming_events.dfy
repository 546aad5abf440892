/**
 * Which stored events are due for an alert: the notification is enabled and the
 * event starts less than its lead time from now.
 */
module UpcomingEvents {
  import opened Models

  /** An event together with its notification setting, as the repository returns them. */
  type EventWithNotification = (Event, Notification)

  /** `filter_by_start_time`: the start is less than the lead time away from `now`, and alerts are enabled. */
  predicate IsDue(pair: EventWithNotification, now: Instant): (due: bool)
    ensures due ==> pair.1.enabled
    ensures due ==> pair.0.startDatetime < now + pair.1.leadSeconds
    ensures pair.1.enabled && pair.0.startDatetime <= now && pair.1.leadSeconds > 0 ==> due
  {
    pair.0.startDatetime - now < pair.1.leadSeconds && pair.1.enabled
  }

  /**
   * `filter_upcoming_events`: the events of the due pairs, in input order; the
   * notification halves are dropped.
   */
  function FilterUpcomingEvents(events: seq<EventWithNotification>, now: Instant): (upcoming: seq<Event>)
    ensures |upcoming| <= |events|
    ensures forall e :: e in upcoming ==> exists p :: p in events && p.0 == e && IsDue(p, now)
    ensures forall p :: p in events && IsDue(p, now) ==> p.0 in upcoming
  {
    if events == [] then []
    else
      var rest := FilterUpcomingEvents(events[1..], now);
      assert forall p :: p in events[1..] ==> p in events;
      if IsDue(events[0], now) then [events[0].0] + rest else rest
  }

  /** Filtering distributes over concatenation, so the output keeps the input order. */
  lemma {:induction false} FilterConcat(a: seq<EventWithNotification>, b: seq<EventWithNotification>, now: Instant)
    ensures FilterUpcomingEvents(a + b, now) == FilterUpcomingEvents(a, now) + FilterUpcomingEvents(b, now)
  {
    if a == [] {
      assert a + b == b;
    } else {
      assert (a + b)[1..] == a[1..] + b;
      FilterConcat(a[1..], b, now);
    }
  }

  /** A single pair yields its event exactly when it is due. */
  lemma FilterSingle(p: EventWithNotification, now: Instant)
    ensures FilterUpcomingEvents([p], now) == if IsDue(p, now) then [p.0] else []
  {
  }

  /** A disabled notification is never due, whatever the start time. */
  lemma DisabledNeverDue(e: Event, n: Notification, now: Instant)
    requires !n.enabled
    ensures !IsDue((e, n), now)
  {
  }

  /** The boundary: an enabled event starting exactly one lead time away is not due; one second sooner it is. */
  lemma LeadBoundary(e: Event, n: Notification, now: Instant)
    requires n.enabled
    ensures e.startDatetime == now + n.leadSeconds ==> !IsDue((e, n), now)
    ensures e.startDatetime == now + n.leadSeconds - 1 ==> IsDue((e, n), now)
  {
  }

  /** An enabled event that has already started is due whenever the lead time is not negative. */
  lemma StartedIsDue(e: Event, n: Notification, now: Instant)
    requires n.enabled && n.leadSeconds >= 0 && e.startDatetime < now
    ensures IsDue((e, n), now)
  {
  }

  /** Nothing enabling an alert ever leaves the upcoming list as time goes on. */
  lemma {:induction false} UpcomingGrows(events: seq<EventWithNotification>, now: Instant, later: Instant)
    requires now <= later
    ensures forall e :: e in FilterUpcomingEvents(events, now) ==> e in FilterUpcomingEvents(events, later)
  {
    forall e | e in FilterUpcomingEvents(events, now)
      ensures e in FilterUpcomingEvents(events, later)
    {
      var p :| p in events && p.0 == e && IsDue(p, now);
      assert IsDue(p, later);
    }
  }

  /**
   * The unit test of `filter_by_start_time`, at 2023-08-01T12:00:00+09:00 with a lead time of
   * 600 seconds: a start at 12:10:00 is not due, 12:09:59 is due, and a disabled one is not.
   */
  lemma UnitTestFilterByStartTime(e1: Event, e2: Event, e3: Event, n: Notification)
    requires e1.startDatetime == 1690858800 + 600 && e2.startDatetime == 1690858800 + 599
    requires e3 == e1 && n.leadSeconds == 600 && n.enabled
    ensures !IsDue((e1, n), 1690858800)
    ensures IsDue((e2, n), 1690858800)
    ensures !IsDue((e3, n.(enabled := false)), 1690858800)
    ensures FilterUpcomingEvents([(e1, n), (e2, n), (e3, n.(enabled := false))], 1690858800) == [e2]
  {
    var pairs := [(e1, n), (e2, n), (e3, n.(enabled := false))];
    assert pairs[1..] == [(e2, n), (e3, n.(enabled := false))];
    assert pairs[1..][1..] == [(e3, n.(enabled := false))];
    assert FilterUpcomingEvents(pairs[1..][1..], 1690858800) == [];
    assert FilterUpcomingEvents(pairs[1..], 1690858800) == [e2];
  }
}
