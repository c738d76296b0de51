/** The per-user traffic counter of the current UTC day, and the sweep of earlier days that
    runs with each flush. Days are numbered. */
module DailyTraffic {
  import StatsFlush

  datatype Day = Day(date: int, bytes: int)

  type Book = map<string, Day>

  datatype Event = Count(uid: string, bytes: int, today: int) | Reset(uid: string) | Sweep(today: int)
  {
    /** Reads the clock for the user's record. */
    predicate Dates(u: string) { Sweep? || (Count? && uid == u) }
  }

  function BytesOn(daily: Book, uid: string, today: int): int {
    if uid !in daily || daily[uid].date != today then 0 else daily[uid].bytes
  }

  function Step(daily: Book, ev: Event): Book {
    match ev
    case Reset(uid) => daily - {uid}
    case Sweep(today) => map u | u in daily && daily[u].date == today :: daily[u]
    case Count(uid, bytes, today) =>
      if uid == "" then daily else daily[uid := Day(today, StatsFlush.Sum64(BytesOn(daily, uid, today), bytes))]
  }

  function Run(events: seq<Event>): Book {
    if events == [] then map[] else Step(Run(events[..|events| - 1]), events[|events| - 1])
  }

  /** For this user the clock does not run back to an earlier day. */
  ghost predicate DaysAdvance(events: seq<Event>, uid: string) {
    forall i, j :: 0 <= i < j < |events| && events[i].Dates(uid) && events[j].Dates(uid) ==> events[i].today <= events[j].today
  }

  ghost predicate NotAfter(events: seq<Event>, uid: string, today: int) {
    forall i :: 0 <= i < |events| && events[i].Dates(uid) ==> events[i].today <= today
  }

  /** What was counted for the user that day since its last reset, in 64 bits. */
  function CountedOn(events: seq<Event>, uid: string, today: int): int {
    if events == [] then 0
    else
      var before, ev := events[..|events| - 1], events[|events| - 1];
      if ev == Reset(uid) then 0
      else if ev.Count? && ev.uid == uid && ev.today == today then StatsFlush.Sum64(CountedOn(before, uid, today), ev.bytes)
      else CountedOn(before, uid, today)
  }

  /** What of that count was given up, because the clock showed another day in between. */
  function Lost(events: seq<Event>, uid: string, today: int): int {
    if events == [] then 0
    else
      var before, ev := events[..|events| - 1], events[|events| - 1];
      if ev == Reset(uid) then 0
      else if ev.Dates(uid) && ev.today != today then CountedOn(before, uid, today)
      else Lost(before, uid, today)
  }

  lemma {:induction false} CountedInRange(events: seq<Event>, uid: string, today: int)
    ensures 0 <= CountedOn(events, uid, today) < StatsFlush.M64
  {
    if events != [] { CountedInRange(events[..|events| - 1], uid, today); }
  }

  lemma {:induction false} LostInRange(events: seq<Event>, uid: string, today: int)
    ensures 0 <= Lost(events, uid, today) < StatsFlush.M64
  {
    if events != [] {
      CountedInRange(events[..|events| - 1], uid, today);
      LostInRange(events[..|events| - 1], uid, today);
    }
  }

  lemma {:induction false} BytesInRange(events: seq<Event>, uid: string, today: int)
    ensures 0 <= BytesOn(Run(events), uid, today) < StatsFlush.M64
  {
    if events != [] { BytesInRange(events[..|events| - 1], uid, today); }
  }

  lemma AddedLast(x: int, y: int, b: int)
    ensures StatsFlush.Sum64(StatsFlush.Sum64(x, b), y) == StatsFlush.Sum64(StatsFlush.Sum64(x, y), b)
  {
    StatsFlush.Chained(x, b, y, 0);
    StatsFlush.Chained(x, y, b, 0);
  }

  lemma NothingAdded(x: int)
    requires 0 <= x < StatsFlush.M64
    ensures StatsFlush.Sum64(0, x) == x
  {
  }

  /** For every sequence of events, whatever the clock does: the record and what was given up
      make the day's count. */
  lemma {:induction false} RecordAndLost(events: seq<Event>, uid: string, today: int)
    requires uid != ""
    ensures StatsFlush.Sum64(BytesOn(Run(events), uid, today), Lost(events, uid, today)) == CountedOn(events, uid, today)
  {
    hide StatsFlush.Sum64;
    if events == [] {
      NothingAdded(0);
    } else {
      var before, ev := events[..|events| - 1], events[|events| - 1];
      RecordAndLost(before, uid, today);
      CountedInRange(before, uid, today);
      NothingAdded(CountedOn(before, uid, today));
      NothingAdded(0);
      if ev.Count? { AddedLast(BytesOn(Run(before), uid, today), Lost(before, uid, today), ev.bytes); }
    }
  }

  /** So the record answers exactly what was counted that day if and only if nothing was given
      up. Other users' traffic does not count, and sweeps of the same day are unobservable. */
  lemma TodayExactly(events: seq<Event>, uid: string, today: int)
    requires uid != ""
    ensures BytesOn(Run(events), uid, today) == CountedOn(events, uid, today) <==> Lost(events, uid, today) == 0
  {
    RecordAndLost(events, uid, today);
    BytesInRange(events, uid, today);
    LostInRange(events, uid, today);
    StatsFlush.Cancel64(BytesOn(Run(events), uid, today), Lost(events, uid, today));
  }

  /** Nothing is while the clock of the user's events does not run back a day. */
  lemma {:induction false} NothingLost(events: seq<Event>, uid: string, today: int)
    requires DaysAdvance(events, uid) && NotAfter(events, uid, today)
    ensures Lost(events, uid, today) == 0
  {
    if events != [] {
      var before, ev := events[..|events| - 1], events[|events| - 1];
      NothingLost(before, uid, today);
      if ev.Dates(uid) && ev.today < today { NothingLater(before, uid, ev.today, today); }
    }
  }

  lemma TodayExact(events: seq<Event>, uid: string, today: int)
    requires uid != "" && DaysAdvance(events, uid) && NotAfter(events, uid, today)
    ensures BytesOn(Run(events), uid, today) == CountedOn(events, uid, today)
  {
    NothingLost(events, uid, today);
    TodayExactly(events, uid, today);
  }

  lemma {:induction false} NothingLater(events: seq<Event>, uid: string, last: int, today: int)
    requires NotAfter(events, uid, last) && last < today
    ensures CountedOn(events, uid, today) == 0
  {
    if events != [] { NothingLater(events[..|events| - 1], uid, last, today); }
  }

  /** A clock that steps back a day loses that day's count. */
  lemma BackwardClockForgets()
    ensures var events := [Count("u", 5, 2), Count("u", 7, 1)];
            BytesOn(Run(events), "u", 2) == 0 && CountedOn(events, "u", 2) == 5
  {
    var events := [Count("u", 5, 2), Count("u", 7, 1)];
    var one := [Count("u", 5, 2)];
    assert events[..1] == one && one[..0] == [];
    assert Run(one) == Step(Run([]), Count("u", 5, 2));
  }

  // ---- the source's own form ----

  class DailyBook {
    var daily: Book

    constructor ()
      ensures daily == Run([])
    {
      daily := map[];
    }

    method DailyBytes(uid: string, today: int) returns (bytes: int)
      ensures bytes == BytesOn(daily, uid, today)
    {
      if uid !in daily || daily[uid].date != today {
        return 0;
      }
      bytes := daily[uid].bytes;
    }

    method AddDaily(uid: string, bytes: int, today: int)
      modifies this
      ensures daily == Step(old(daily), Count(uid, bytes, today))
    {
      if uid == "" {
        return;
      }
      var d := if uid in daily then daily[uid] else Day(today, 0);
      if d.date != today {
        d := Day(today, 0);
      }
      daily := daily[uid := d.(bytes := StatsFlush.Sum64(d.bytes, bytes))];
    }

    method ResetDaily(uid: string)
      modifies this
      ensures daily == Step(old(daily), Reset(uid))
    {
      daily := daily - {uid};
    }
  
    /** The loop of FlushStats over the counters. */
    method PruneDays(today: int)
      modifies this
      ensures daily == Step(old(daily), Sweep(today))
      ensures forall u :: u in daily <==> u in old(daily) && old(daily)[u].date == today
      ensures forall u :: u in daily ==> daily[u] == old(daily)[u]
    {
      var uids := daily.Keys;
      while uids != {}
        invariant uids <= old(daily).Keys
        invariant forall u :: u in daily <==> u in old(daily) && (u in uids || old(daily)[u].date == today)
        invariant forall u :: u in daily ==> daily[u] == old(daily)[u]
      {
        var uid :| uid in uids;
        if daily[uid].date != today {
          daily := daily - {uid};
        }
        uids := uids - {uid};
      }
    }
  }
}
