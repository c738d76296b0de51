/** Per-user traffic counters: live maps that requests add to, a flush that swaps them
    out and later merges them into the stored users, and the merged view. Counters are
    64-bit and wrap. */
module StatsFlush {
  import opened Wrappers

  const M64: int := 0x1_0000_0000_0000_0000

  function Sum64(a: int, b: int): int { (a + b) % M64 }

  datatype Counters = Counters(requests: int, bytesIn: int, bytesOut: int)
  {
    function Plus(o: Counters): Counters {
      Counters(Sum64(requests, o.requests), Sum64(bytesIn, o.bytesIn), Sum64(bytesOut, o.bytesOut))
    }

    predicate InRange() { 0 <= requests < M64 && 0 <= bytesIn < M64 && 0 <= bytesOut < M64 }
  }

  const ZERO := Counters(0, 0, 0)

  lemma PlusLaws(a: Counters, b: Counters, c: Counters)
    ensures a.Plus(b) == b.Plus(a) && a.Plus(b).InRange()
    ensures a.Plus(b).Plus(c) == a.Plus(b.Plus(c))
    ensures a.InRange() ==> a.Plus(ZERO) == a
  {
  }

  type Tallies = map<string, Counters>

  function Of(m: Tallies, uid: string): Counters { if uid in m then m[uid] else ZERO }

  datatype Row = Row(id: string, stats: Counters)

  /** The row carrying an ID. */
  function Stored(users: seq<Row>, uid: string): Option<Counters> {
    if users == [] then None
    else if users[0].id == uid then Some(users[0].stats)
    else Stored(users[1..], uid)
  }

  // ---- the steps ----

  function AddLive(live: Tallies, uid: string, bin: int, bout: int): Tallies {
    if uid == "" then live else live[uid := Of(live, uid).Plus(Counters(1, bin, bout))]
  }

  function MergeRows(users: seq<Row>, flight: Tallies): (r: seq<Row>)
    ensures |r| == |users|
  {
    seq(|users|, i requires 0 <= i < |users| => Row(users[i].id, users[i].stats.Plus(Of(flight, users[i].id))))
  }

  datatype State = State(users: seq<Row>, live: Tallies, flights: seq<Tallies>)

  /** Add is one request's accounting; a flush is a Swap and, any time later, a Merge of
      what it swapped out; Admin is any replacement of the stored users. */
  datatype Action = Add(uid: string, bin: int, bout: int) | Swap | Merge(flight: nat) | Admin(users: seq<Row>)

  function Step(s: State, a: Action): State {
    match a
    case Add(uid, bin, bout) => s.(live := AddLive(s.live, uid, bin, bout))
    case Swap => if s.live == map[] then s else s.(live := map[], flights := s.flights + [s.live])
    case Merge(f) =>
      if f < |s.flights| then s.(users := MergeRows(s.users, s.flights[f]), flights := s.flights[f := map[]]) else s
    case Admin(users) => s.(users := users)
  }

  function Run(s: State, actions: seq<Action>): State {
    if actions == [] then s else Step(Run(s, actions[..|actions| - 1]), actions[|actions| - 1])
  }

  /** Everything ever added for a user. */
  function Added(actions: seq<Action>, uid: string): Counters {
    if actions == [] then ZERO
    else
      var a := actions[|actions| - 1];
      var before := Added(actions[..|actions| - 1], uid);
      if a.Add? && a.uid == uid && uid != "" then before.Plus(Counters(1, a.bin, a.bout)) else before
  }

  function InFlight(flights: seq<Tallies>, uid: string): (c: Counters)
    ensures c.InRange()
  {
    if flights == [] then ZERO
    else InFlight(flights[..|flights| - 1], uid).Plus(Of(flights[|flights| - 1], uid))
  }

  /** The user is present throughout, and no administrator's edit touches its counters. */
  ghost predicate Undisturbed(s: State, actions: seq<Action>, uid: string) {
    && Stored(s.users, uid).Some?
    && forall i :: 0 <= i < |actions| && actions[i].Admin? ==>
         Stored(actions[i].users, uid) == Stored(Run(s, actions[..i]).users, uid)
  }

  lemma {:induction false} StoredMerge(users: seq<Row>, flight: Tallies, uid: string)
    ensures Stored(MergeRows(users, flight), uid)
            == match Stored(users, uid) case None => None case Some(c) => Some(c.Plus(Of(flight, uid)))
  {
    if users != [] {
      assert MergeRows(users, flight)[1..] == MergeRows(users[1..], flight);
      StoredMerge(users[1..], flight, uid);
    }
  }

  lemma {:induction false} InFlightMerged(flights: seq<Tallies>, f: nat, uid: string)
    requires f < |flights|
    ensures InFlight(flights, uid) == InFlight(flights[f := map[]], uid).Plus(Of(flights[f], uid))
  {
    var n := |flights| - 1;
    var rest, last, gone := InFlight(flights[..n], uid), Of(flights[n], uid), Of(flights[f], uid);
    if f == n {
      assert flights[f := map[]][..n] == flights[..n];
      PlusLaws(rest, ZERO, last);
      PlusLaws(ZERO, last, ZERO);
    } else {
      assert flights[f := map[]][..n] == flights[..n][f := map[]];
      InFlightMerged(flights[..n], f, uid);
      var others := InFlight(flights[..n][f := map[]], uid);
      PlusLaws(others, gone, last);
      PlusLaws(gone, last, ZERO);
      PlusLaws(others, last, gone);
    }
  }

  /** stored + live + in flight. */
  function Everything(s: State, uid: string): Counters
    requires Stored(s.users, uid).Some?
  {
    Stored(s.users, uid).value.Plus(Of(s.live, uid)).Plus(InFlight(s.flights, uid))
  }

  lemma Regroup(p: Counters, l: Counters, f: Counters, d: Counters)
    ensures p.Plus(l.Plus(d)).Plus(f) == p.Plus(l).Plus(f).Plus(d)
    ensures p.Plus(ZERO).Plus(f.Plus(l)) == p.Plus(l).Plus(f)
    ensures p.Plus(d).Plus(l).Plus(f) == p.Plus(l).Plus(f.Plus(d))
  {
    Regroup64(p.requests, l.requests, f.requests, d.requests);
    Regroup64(p.bytesIn, l.bytesIn, f.bytesIn, d.bytesIn);
    Regroup64(p.bytesOut, l.bytesOut, f.bytesOut, d.bytesOut);
  }

  lemma Regroup64(p: int, l: int, f: int, d: int)
    ensures Sum64(Sum64(p, Sum64(l, d)), f) == Sum64(Sum64(Sum64(p, l), f), d)
    ensures Sum64(Sum64(p, 0), Sum64(f, l)) == Sum64(Sum64(p, l), f)
    ensures Sum64(Sum64(Sum64(p, d), l), f) == Sum64(Sum64(p, l), Sum64(f, d))
  {
    Nested(p, l, d, f);
    Chained(p, l, f, d);
    Paired(p, 0, f, l);
    ChainedThree(p, l, f);
    Chained(p, d, l, f);
    Paired(p, l, f, d);
  }

  lemma ChainedThree(a: int, b: int, c: int)
    ensures Sum64(Sum64(a, b), c) == (a + b + c) % M64
  {
    InnerWrap(a + b, c);
  }

  lemma Chained(a: int, b: int, c: int, d: int)
    ensures Sum64(Sum64(Sum64(a, b), c), d) == (a + b + c + d) % M64
  {
    ChainedThree(a, b, c);
    InnerWrap(a + b + c, d);
  }

  lemma Nested(a: int, b: int, c: int, d: int)
    ensures Sum64(Sum64(a, Sum64(b, c)), d) == (a + b + c + d) % M64
  {
    InnerWrap(b + c, a);
    InnerWrap(a + b + c, d);
  }

  lemma Paired(a: int, b: int, c: int, d: int)
    ensures Sum64(Sum64(a, b), Sum64(c, d)) == (a + b + c + d) % M64
  {
    InnerWrap(a + b, Sum64(c, d));
    InnerWrap(c + d, a + b);
  }

  /** An inner wrap does not matter once the sum is wrapped. */
  lemma InnerWrap(a: int, b: int)
    ensures (a % M64 + b) % M64 == (b + a % M64) % M64 == (a + b) % M64
  {
  }

  lemma StepConserves(s: State, a: Action, uid: string)
    requires Stored(s.users, uid).Some? && (a.Admin? ==> Stored(a.users, uid) == Stored(s.users, uid))
    ensures Stored(Step(s, a).users, uid).Some?
    ensures Everything(Step(s, a), uid)
            == if a.Add? && a.uid == uid && uid != "" then Everything(s, uid).Plus(Counters(1, a.bin, a.bout))
               else Everything(s, uid)
  {
    var p, l, f := Stored(s.users, uid).value, Of(s.live, uid), InFlight(s.flights, uid);
    match a
    case Add(u, bin, bout) =>
      Regroup(p, l, f, Counters(1, bin, bout));
    case Swap =>
      Regroup(p, l, f, ZERO);
      assert (s.flights + [s.live])[..|s.flights|] == s.flights;
    case Merge(i) =>
      if i < |s.flights| {
        StoredMerge(s.users, s.flights[i], uid);
        InFlightMerged(s.flights, i, uid);
        Regroup(p, l, InFlight(s.flights[i := map[]], uid), Of(s.flights[i], uid));
      }
    case Admin(_) =>
  }

  /** At every point of every interleaving of requests and overlapping flushes, nothing
      counted for an undisturbed user is lost or counted twice. */
  lemma {:induction false} Conservation(s: State, actions: seq<Action>, uid: string)
    requires Undisturbed(s, actions, uid) && Everything(s, uid).InRange()
    ensures Stored(Run(s, actions).users, uid).Some?
    ensures Everything(Run(s, actions), uid) == Everything(s, uid).Plus(Added(actions, uid))
  {
    if actions == [] {
      PlusLaws(Everything(s, uid), ZERO, ZERO);
    } else {
      var n := |actions| - 1;
      var before, a := actions[..n], actions[n];
      forall i | 0 <= i < n && before[i].Admin?
        ensures Stored(before[i].users, uid) == Stored(Run(s, before[..i]).users, uid)
      {
        assert before[..i] == actions[..i];
        assert actions[i].Admin?;
      }
      Conservation(s, before, uid);
      StepConserves(Run(s, before), a, uid);
      if a.Add? {
        PlusLaws(Everything(s, uid), Added(before, uid), Counters(1, a.bin, a.bout));
      }
    }
  }

  // ---- the merged view ----

  /** What merges have added to the user's stored counters since the first n actions. */
  function MergedSince(s: State, actions: seq<Action>, n: nat, uid: string): Counters
    requires n <= |actions|
    decreases |actions|
  {
    if |actions| == n then ZERO
    else
      var before, a := actions[..|actions| - 1], actions[|actions| - 1];
      var flights := Run(s, before).flights;
      if a.Merge? && a.flight < |flights| then MergedSince(s, before, n, uid).Plus(Of(flights[a.flight], uid))
      else MergedSince(s, before, n, uid)
  }

  lemma UndisturbedBefore(s: State, actions: seq<Action>, uid: string)
    requires actions != [] && Undisturbed(s, actions, uid)
    ensures Undisturbed(s, actions[..|actions| - 1], uid)
  {
    var before := actions[..|actions| - 1];
    forall i | 0 <= i < |before| && before[i].Admin?
      ensures Stored(before[i].users, uid) == Stored(Run(s, before[..i]).users, uid)
    {
      assert before[..i] == actions[..i] && actions[i].Admin?;
    }
  }

  lemma {:induction false} StoredPresent(s: State, actions: seq<Action>, uid: string)
    requires Undisturbed(s, actions, uid)
    ensures Stored(Run(s, actions).users, uid).Some?
  {
    if actions != [] {
      var n := |actions| - 1;
      UndisturbedBefore(s, actions, uid);
      StoredPresent(s, actions[..n], uid);
      var b, a := Run(s, actions[..n]), actions[n];
      if a.Merge? && a.flight < |b.flights| { StoredMerge(b.users, b.flights[a.flight], uid); }
    }
  }

  lemma {:induction false} StoredGrows(s: State, actions: seq<Action>, n: nat, uid: string)
    requires Undisturbed(s, actions, uid) && n <= |actions| && Stored(s.users, uid).value.InRange()
    ensures Undisturbed(s, actions[..n], uid)
    ensures Stored(Run(s, actions[..n]).users, uid).Some? && Stored(Run(s, actions).users, uid).Some?
    ensures Stored(Run(s, actions[..n]).users, uid).value.InRange()
    ensures Stored(Run(s, actions).users, uid).value
            == Stored(Run(s, actions[..n]).users, uid).value.Plus(MergedSince(s, actions, n, uid))
    decreases |actions|
  {
    StoredPresent(s, actions, uid);
    if n == |actions| {
      assert actions[..n] == actions;
      StoredInRange(s, actions, uid);
      PlusLaws(Stored(Run(s, actions).users, uid).value, ZERO, ZERO);
    } else {
      var before, a := actions[..|actions| - 1], actions[|actions| - 1];
      assert before[..n] == actions[..n];
      UndisturbedBefore(s, actions, uid);
      StoredGrows(s, before, n, uid);
      var b := Run(s, before);
      if a.Merge? && a.flight < |b.flights| {
        StoredMerge(b.users, b.flights[a.flight], uid);
        PlusLaws(Stored(Run(s, actions[..n]).users, uid).value, MergedSince(s, before, n, uid), Of(b.flights[a.flight], uid));
      }
    }
  }

  lemma {:induction false} StoredInRange(s: State, actions: seq<Action>, uid: string)
    requires Undisturbed(s, actions, uid) && Stored(s.users, uid).value.InRange()
    ensures Stored(Run(s, actions).users, uid).Some? && Stored(Run(s, actions).users, uid).value.InRange()
  {
    if actions != [] {
      var n := |actions| - 1;
      UndisturbedBefore(s, actions, uid);
      StoredInRange(s, actions[..n], uid);
      var b, a := Run(s, actions[..n]), actions[n];
      if a.Merge? && a.flight < |b.flights| {
        StoredMerge(b.users, b.flights[a.flight], uid);
        PlusLaws(Stored(b.users, uid).value, Of(b.flights[a.flight], uid), ZERO);
      }
    }
  }

  /** The view shown to administrators: a copy of the user taken after the first n actions,
      plus what is live now. */
  function MergedStats(s: State, actions: seq<Action>, n: nat, uid: string): Counters
    requires n <= |actions| && Stored(Run(s, actions[..n]).users, uid).Some?
  {
    Stored(Run(s, actions[..n]).users, uid).value.Plus(Of(Run(s, actions).live, uid))
  }

  /** By how much the view falls short: flushes merged since the copy was taken, and those
      still in flight. */
  function Lag(s: State, actions: seq<Action>, n: nat, uid: string): Counters
    requires n <= |actions|
  {
    MergedSince(s, actions, n, uid).Plus(InFlight(Run(s, actions).flights, uid))
  }

  lemma Arrange(a: Counters, m: Counters, l: Counters, f: Counters)
    ensures a.Plus(m).Plus(l).Plus(f) == a.Plus(l).Plus(m.Plus(f))
  {
    PlusLaws(a, m, l);
    PlusLaws(m, l, ZERO);
    PlusLaws(a, l, m);
    PlusLaws(a.Plus(l), m, f);
  }

  /** The view and its lag together are the true total, whenever the copy was taken. */
  lemma MergedStatsLags(s: State, actions: seq<Action>, n: nat, uid: string)
    requires Undisturbed(s, actions, uid) && s.live == map[] && s.flights == []
    requires Stored(s.users, uid).value.InRange() && n <= |actions|
    ensures Stored(Run(s, actions[..n]).users, uid).Some?
    ensures MergedStats(s, actions, n, uid).Plus(Lag(s, actions, n, uid))
            == Stored(s.users, uid).value.Plus(Added(actions, uid))
  {
    var p, end := Stored(s.users, uid).value, Run(s, actions);
    PlusLaws(p, ZERO, ZERO);
    Conservation(s, actions, uid);
    StoredGrows(s, actions, n, uid);
    Arrange(Stored(Run(s, actions[..n]).users, uid).value, MergedSince(s, actions, n, uid), Of(end.live, uid),
            InFlight(end.flights, uid));
  }

  lemma NothingMissing(total: Counters, view: Counters, lag: Counters)
    requires view.InRange() && lag.InRange() && view.Plus(lag) == total
    ensures view == total <==> lag == ZERO
  {
    Cancel64(view.requests, lag.requests);
    Cancel64(view.bytesIn, lag.bytesIn);
    Cancel64(view.bytesOut, lag.bytesOut);
  }

  lemma Cancel64(a: int, b: int)
    requires 0 <= a < M64 && 0 <= b < M64
    ensures Sum64(a, b) == a <==> b == 0
  {
    if a + b >= M64 { assert Sum64(a, b) == a + b - M64; }
  }

  /** So the view is the true total exactly when nothing was merged since the copy and
      nothing is in flight. */
  lemma MergedStatsExact(s: State, actions: seq<Action>, n: nat, uid: string)
    requires Undisturbed(s, actions, uid) && s.live == map[] && s.flights == []
    requires Stored(s.users, uid).value.InRange() && n <= |actions|
    ensures Stored(Run(s, actions[..n]).users, uid).Some?
    ensures MergedStats(s, actions, n, uid) == Stored(s.users, uid).value.Plus(Added(actions, uid))
            <==> Lag(s, actions, n, uid) == ZERO
  {
    MergedStatsLags(s, actions, n, uid);
    var copy, end := Stored(Run(s, actions[..n]).users, uid).value, Run(s, actions);
    PlusLaws(copy, Of(end.live, uid), ZERO);
    PlusLaws(MergedSince(s, actions, n, uid), InFlight(end.flights, uid), ZERO);
    NothingMissing(Stored(s.users, uid).value.Plus(Added(actions, uid)), MergedStats(s, actions, n, uid),
                   Lag(s, actions, n, uid));
  }

  ghost predicate NoFlushInFlight(s: State) {
    forall i :: 0 <= i < |s.flights| ==> s.flights[i] == map[]
  }

  lemma {:induction false} NothingInFlight(flights: seq<Tallies>, uid: string)
    requires forall i :: 0 <= i < |flights| ==> flights[i] == map[]
    ensures InFlight(flights, uid) == ZERO
  {
    if flights != [] { NothingInFlight(flights[..|flights| - 1], uid); }
  }

  lemma {:induction false} NothingMerged(s: State, actions: seq<Action>, n: nat, uid: string)
    requires n <= |actions| && forall i :: n <= i < |actions| ==> !actions[i].Merge?
    ensures MergedSince(s, actions, n, uid) == ZERO
    decreases |actions|
  {
    if n < |actions| { NothingMerged(s, actions[..|actions| - 1], n, uid); }
  }

  /** In particular when no flush is under way and none finished since the copy was taken. */
  lemma QuietViewExact(s: State, actions: seq<Action>, n: nat, uid: string)
    requires Undisturbed(s, actions, uid) && s.live == map[] && s.flights == []
    requires Stored(s.users, uid).value.InRange() && n <= |actions|
    requires NoFlushInFlight(Run(s, actions)) && forall i :: n <= i < |actions| ==> !actions[i].Merge?
    ensures Stored(Run(s, actions[..n]).users, uid).Some?
    ensures MergedStats(s, actions, n, uid) == Stored(s.users, uid).value.Plus(Added(actions, uid))
  {
    NothingInFlight(Run(s, actions).flights, uid);
    NothingMerged(s, actions, n, uid);
    MergedStatsExact(s, actions, n, uid);
  }

  // ---- the source's own form ----

  /** liveStats: three maps that always have the same keys. */
  class LiveStats {
    var requests: map<string, int>
    var bytesIn: map<string, int>
    var bytesOut: map<string, int>

    ghost predicate Valid()
      reads this
    {
      requests.Keys == bytesIn.Keys == bytesOut.Keys
    }

    ghost function View(): Tallies
      reads this
      requires Valid()
    {
      map u | u in requests :: Counters(requests[u], bytesIn[u], bytesOut[u])
    }

    constructor ()
      ensures Valid() && View() == map[]
    {
      requests, bytesIn, bytesOut := map[], map[], map[];
    }

    method Bump(uid: string, bin: int, bout: int)
      requires Valid()
      modifies this
      ensures Valid() && View() == AddLive(old(View()), uid, bin, bout)
      ensures uid != "" ==> uid in requests
                            && requests[uid] == Sum64(if uid in old(requests) then old(requests)[uid] else 0, 1)
                            && bytesIn[uid] == Sum64(if uid in old(bytesIn) then old(bytesIn)[uid] else 0, bin)
                            && bytesOut[uid] == Sum64(if uid in old(bytesOut) then old(bytesOut)[uid] else 0, bout)
    {
      if uid == "" {
        return;
      }
      requests := requests[uid := Sum64(if uid in requests then requests[uid] else 0, 1)];
      bytesIn := bytesIn[uid := Sum64(if uid in bytesIn then bytesIn[uid] else 0, bin)];
      bytesOut := bytesOut[uid := Sum64(if uid in bytesOut then bytesOut[uid] else 0, bout)];
    }
  }

  /** The stored users' counters, and the flush that updates them in place. */
  class StatsBook {
    const live: LiveStats
    var users: seq<Row>

    constructor (users: seq<Row>)
      ensures fresh(live) && live.Valid() && live.View() == map[] && this.users == users
    {
      live := new LiveStats();
      this.users := users;
    }

    /** First section: take everything out of the live maps. */
    method SwapOut() returns (requests: map<string, int>, bytesIn: map<string, int>, bytesOut: map<string, int>)
      requires live.Valid()
      modifies live
      ensures live.Valid() && live.View() == map[]
      ensures requests == old(live.requests) && bytesIn == old(live.bytesIn) && bytesOut == old(live.bytesOut)
    {
      requests, bytesIn, bytesOut := live.requests, live.bytesIn, live.bytesOut;
      live.requests, live.bytesIn, live.bytesOut := map[], map[], map[];
    }

    /** Second section: the update callback, user by user. */
    method MergeIn(requests: map<string, int>, bytesIn: map<string, int>, bytesOut: map<string, int>)
      requires requests.Keys == bytesIn.Keys == bytesOut.Keys
      requires forall i :: 0 <= i < |users| ==> users[i].stats.InRange()
      modifies this
      ensures users == MergeRows(old(users), map u | u in requests :: Counters(requests[u], bytesIn[u], bytesOut[u]))
    {
      ghost var before := users;
      ghost var flight: Tallies := map u | u in requests :: Counters(requests[u], bytesIn[u], bytesOut[u]);
      var i := 0;
      while i < |users|
        invariant 0 <= i <= |users| == |before|
        invariant forall j :: 0 <= j < i ==> users[j] == MergeRows(before, flight)[j]
        invariant forall j :: i <= j < |users| ==> users[j] == before[j]
      {
        var uid, c := users[i].id, users[i].stats;
        if uid in requests {
          c := c.(requests := Sum64(c.requests, requests[uid]));
        }
        if uid in bytesIn {
          c := c.(bytesIn := Sum64(c.bytesIn, bytesIn[uid]));
        }
        if uid in bytesOut {
          c := c.(bytesOut := Sum64(c.bytesOut, bytesOut[uid]));
        }
        PlusLaws(before[i].stats, ZERO, ZERO);
        users := users[i := Row(uid, c)];
        i := i + 1;
      }
    }
  }
}
