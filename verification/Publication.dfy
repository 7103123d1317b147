/** The publication rule of day-ahead prices. A time zone is the instant at
    which a local calendar day starts, by day number; `None` outside the
    supported range. */
module Publication {
  import opened Common
  import opened Quarters

  type Zone = int -> Option<int>

  /** The UTC hour at which the prices of the next delivery day come out. */
  const PUBLICATION_HOUR_UTC: int := 12

  /** The instant up to which prices are known at `issued`. */
  function PublicationHorizon(issued: int, zone: Zone): Option<int> {
    var day := issued / DAY_MS;
    var publishedDay := if UtcHour(issued) >= PUBLICATION_HOUR_UTC then day + 1 else day;
    zone(publishedDay + 1)
  }

  /** The instant at which the prices of a delivery day are published. */
  function PublishedAt(day: int): int {
    (day - 1) * DAY_MS + PUBLICATION_HOUR_UTC * HOUR_MS
  }

  /** The horizon is the end of the last delivery day that is published by then. */
  lemma HorizonEndsLastPublishedDay(issued: int, zone: Zone, last: int)
    requires PublishedAt(last) <= issued < PublishedAt(last + 1)
    ensures PublicationHorizon(issued, zone) == zone(last + 1)
    ensures forall day :: PublishedAt(day) <= issued <==> day <= last
    ensures PublishedAt(last) == (last * 24 - 12) * 60 * 60 * 1000
  {
    var day := issued / DAY_MS;
    assert issued == day * DAY_MS + issued % DAY_MS;
    assert UtcHour(issued) >= PUBLICATION_HOUR_UTC <==> issued % DAY_MS >= PUBLICATION_HOUR_UTC * HOUR_MS;
    assert last == if UtcHour(issued) >= PUBLICATION_HOUR_UTC then day + 1 else day;
  }

  /** Local days start in order, and at most 12 hours before the UTC day of the same number. */
  ghost predicate Plausible(zone: Zone) {
    && (forall d, e :: d < e && zone(d).Some? && zone(e).Some? ==> zone(d).value < zone(e).value)
    && (forall d :: zone(d).Some? ==> zone(d).value >= d * DAY_MS - 12 * HOUR_MS)
  }

  /** A later issue time never sees fewer published days. */
  lemma HorizonMonotone(s: int, t: int, zone: Zone)
    requires Plausible(zone) && s <= t
    requires PublicationHorizon(s, zone).Some? && PublicationHorizon(t, zone).Some?
    ensures PublicationHorizon(s, zone).value <= PublicationHorizon(t, zone).value
  {
    assert s / DAY_MS <= t / DAY_MS;
    if s / DAY_MS == t / DAY_MS {
      assert s % DAY_MS <= t % DAY_MS;
    }
  }

  /** The published days reach past the issue time itself. */
  lemma HorizonAfterIssue(t: int, zone: Zone)
    requires Plausible(zone) && PublicationHorizon(t, zone).Some?
    ensures t < PublicationHorizon(t, zone).value
  {
    var day := t / DAY_MS;
    assert t == day * DAY_MS + t % DAY_MS;
    var published := if UtcHour(t) >= PUBLICATION_HOUR_UTC then day + 1 else day;
    assert zone(published + 1).value >= (published + 1) * DAY_MS - 12 * HOUR_MS;
  }
}
