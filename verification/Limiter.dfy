/** The three failure limiters (login per address, login per account, proxy port per
    address) are one timed state machine with different constants, plus a background
    pruner. Times are seconds on a clock that does not run backwards. */
module Limiter {
  import opened Wrappers
  import opened Arithmetic
  import opened Text

  /** maxFails failures within failWindow lock the key out for lockout. */
  datatype Limits = Limits(maxFails: int, failWindow: int, lockout: int)
  {
    predicate Sane() { maxFails > 0 && 0 < lockout < failWindow }
  }

  const LOGIN_LIMITS := Limits(10, 15 * 60, 10 * 60)
  const PROXY_LIMITS := Limits(30, 10 * 60, 60)

  /** A loginFails entry; `until` is None for Go's zero time. */
  datatype Entry = Entry(count: int, window: int, until: Option<int>)

  type Table = map<string, Entry>

  // ---- one key ----

  function CheckKey(l: Limits, e: Option<Entry>, now: int): (bool, Option<Entry>) {
    if e.None? then (true, None)
    else if e.value.until.Some? then if now < e.value.until.value then (false, e) else (true, None)
    else (true, if now - e.value.window > l.failWindow then None else e)
  }

  function FailKey(l: Limits, e: Option<Entry>, now: int): Entry {
    var f := if e.None? || now - e.value.window > l.failWindow then Entry(0, now, None) else e.value;
    if f.count + 1 >= l.maxFails then Entry(0, now, Some(now + l.lockout)) else f.(count := f.count + 1)
  }

  // ---- the table ----

  function Get(m: Table, k: string): Option<Entry> { if k in m then Some(m[k]) else None }

  function Put(m: Table, k: string, e: Option<Entry>): Table {
    if e.Some? then m[k := e.value] else m - {k}
  }

  datatype Op = Check(key: string, at: int) | Failure(key: string, at: int) | Success(key: string, at: int) | Prune(at: int)

  function Apply(l: Limits, m: Table, op: Op): (Table, seq<bool>) {
    match op
    case Check(k, now) =>
      var (ok, e) := CheckKey(l, Get(m, k), now);
      (Put(m, k, e), [ok])
    case Failure(k, now) => (m[k := FailKey(l, Get(m, k), now)], [])
    case Success(k, _) => (m - {k}, [])
    case Prune(now) => (map k | k in m && now - m[k].window <= l.failWindow :: m[k], [])
  }

  /** The table after the operations, and the answers of the checks among them. */
  function RunFrom(l: Limits, m: Table, ops: seq<Op>): (Table, seq<bool>)
    decreases |ops|
  {
    if ops == [] then (m, [])
    else
      var (m', a) := Apply(l, m, ops[0]);
      var (end, rest) := RunFrom(l, m', ops[1..]);
      (end, a + rest)
  }

  function WithoutPrunes(ops: seq<Op>): seq<Op> {
    if ops == [] then [] else (if ops[0].Prune? then [] else [ops[0]]) + WithoutPrunes(ops[1..])
  }

  ghost predicate Monotone(start: int, ops: seq<Op>) {
    && (forall i :: 0 <= i < |ops| ==> start <= ops[i].at)
    && (forall i, j :: 0 <= i < j < |ops| ==> ops[i].at <= ops[j].at)
  }

  /** A set `until` is lockout after the window start, so it never outlives the window. */
  predicate Healthy(l: Limits, e: Entry, now: int) {
    e.window <= now && 0 <= e.count < l.maxFails && (e.until.Some? ==> e.until.value == e.window + l.lockout)
  }

  ghost predicate AllHealthy(l: Limits, m: Table, now: int) {
    forall k :: k in m ==> Healthy(l, m[k], now)
  }

  lemma ApplyHealthy(l: Limits, m: Table, op: Op, now: int)
    requires l.Sane() && AllHealthy(l, m, now) && now <= op.at
    ensures AllHealthy(l, Apply(l, m, op).0, op.at)
  {
  }

  /** Entry e answers every later operation as a missing entry would. */
  predicate Expired(l: Limits, e: Entry, now: int) {
    now - e.window > l.failWindow && (e.until.Some? ==> e.until.value <= now)
  }

  /** The pruned table is the other one without some expired entries. */
  ghost predicate Pruned(l: Limits, full: Table, pruned: Table, now: int) {
    && (forall k :: k in pruned ==> k in full && full[k] == pruned[k])
    && (forall k :: k in full && k !in pruned ==> Expired(l, full[k], now))
  }

  lemma SameAnswers(l: Limits, full: Table, pruned: Table, op: Op, now: int)
    requires l.Sane() && now <= op.at && !op.Prune?
    requires AllHealthy(l, full, now) && Pruned(l, full, pruned, now)
    ensures Apply(l, full, op).1 == Apply(l, pruned, op).1
    ensures Pruned(l, Apply(l, full, op).0, Apply(l, pruned, op).0, op.at)
  {
  }

  lemma PruneDropsExpired(l: Limits, full: Table, pruned: Table, op: Op, now: int)
    requires l.Sane() && now <= op.at && op.Prune?
    requires AllHealthy(l, full, now) && Pruned(l, full, pruned, now)
    ensures Pruned(l, full, Apply(l, pruned, op).0, op.at)
  {
  }

  /** Pruning is unobservable: wherever prunes are inserted, every check answers as in the
      run without them. */
  lemma {:induction false} PruningUnobservable(l: Limits, full: Table, pruned: Table, ops: seq<Op>, now: int)
    requires l.Sane() && Monotone(now, ops)
    requires AllHealthy(l, full, now) && Pruned(l, full, pruned, now)
    ensures RunFrom(l, pruned, ops).1 == RunFrom(l, full, WithoutPrunes(ops)).1
    decreases |ops|
  {
    if ops != [] {
      var op, rest := ops[0], ops[1..];
      assert Monotone(op.at, rest);
      if op.Prune? {
        PruneDropsExpired(l, full, pruned, op, now);
        assert WithoutPrunes(ops) == WithoutPrunes(rest);
        PruningUnobservable(l, full, Apply(l, pruned, op).0, rest, op.at);
        assert RunFrom(l, pruned, ops).1 == [] + RunFrom(l, Apply(l, pruned, op).0, rest).1;
      } else {
        SameAnswers(l, full, pruned, op, now);
        ApplyHealthy(l, full, op, now);
        PruningUnobservable(l, Apply(l, full, op).0, Apply(l, pruned, op).0, rest, op.at);
        var kept := WithoutPrunes(ops);
        assert kept == [op] + WithoutPrunes(rest);
        assert kept[0] == op && kept[1..] == WithoutPrunes(rest);
      }
    }
  }

  /** Neither a prune nor one more failure ever brings the end of an active lockout forward. */
  lemma LockoutNeverShortened(l: Limits, m: Table, op: Op, now: int, k: string)
    requires l.Sane() && AllHealthy(l, m, now) && now <= op.at
    requires k in m && m[k].until.Some? && op.at < m[k].until.value
    requires !SuccessOf(op, k)
    ensures var m' := Apply(l, m, op).0;
            k in m' && m'[k].until.Some? && m[k].until.value <= m'[k].until.value
  {
  }

  // ---- runs from an empty table ----

  /** The table after the first n operations. */
  function At(l: Limits, ops: seq<Op>, n: nat): Table
    requires n <= |ops|
  {
    if n == 0 then map[] else Apply(l, At(l, ops, n - 1), ops[n - 1]).0
  }

  function EntryAt(l: Limits, ops: seq<Op>, n: nat, k: string): Option<Entry>
    requires n <= |ops|
  {
    Get(At(l, ops, n), k)
  }

  predicate On(op: Op, k: string) { !op.Prune? && op.key == k }

  predicate FailureOf(op: Op, k: string) { op.Failure? && op.key == k }

  /** The failures of a key among the operations from lo up to hi. */
  function Failures(ops: seq<Op>, k: string, lo: nat, hi: nat): (c: nat)
    requires lo <= hi <= |ops|
    ensures c <= hi - lo
    decreases hi
  {
    if lo == hi then 0 else Failures(ops, k, lo, hi - 1) + if FailureOf(ops[hi - 1], k) then 1 else 0
  }

  lemma {:induction false} FailuresSplit(ops: seq<Op>, k: string, lo: nat, mid: nat, hi: nat)
    requires lo <= mid <= hi <= |ops|
    ensures Failures(ops, k, lo, hi) == Failures(ops, k, lo, mid) + Failures(ops, k, mid, hi)
    decreases hi
  {
    if mid < hi { FailuresSplit(ops, k, lo, mid, hi - 1); }
  }

  predicate SuccessOf(op: Op, k: string) { op.Success? && op.key == k }

  /** No success of the key among the operations from lo up to hi. */
  ghost predicate NoSuccess(ops: seq<Op>, k: string, lo: nat, hi: nat)
    requires hi <= |ops|
  {
    forall n :: lo <= n < hi ==> !SuccessOf(ops[n], k)
  }

  /** The first lo operations end with a success of the key, or there are none. */
  predicate Clean(ops: seq<Op>, k: string, lo: nat)
    requires lo <= |ops|
  {
    lo > 0 ==> SuccessOf(ops[lo - 1], k)
  }

  /** The last operation on the key before n is a check that let the attempt through. */
  predicate Cleared(l: Limits, ops: seq<Op>, n: nat, k: string)
    requires n <= |ops|
  {
    && n > 0
    && if On(ops[n - 1], k) then ops[n - 1].Check? && CheckKey(l, EntryAt(l, ops, n - 1, k), ops[n - 1].at).0
       else Cleared(l, ops, n - 1, k)
  }

  /** The key's attempts come one at a time: a failure follows its own check. Operations on
      other keys, prunes and abandoned checks come anywhere. */
  ghost predicate Sequential(l: Limits, ops: seq<Op>, k: string) {
    forall n :: 0 <= n < |ops| && FailureOf(ops[n], k) ==> Cleared(l, ops, n, k)
  }

  /** What an operation does to one key's entry. */
  function ApplyKey(l: Limits, e: Option<Entry>, op: Op, k: string): Option<Entry> {
    match op
    case Check(key, now) => if key == k then CheckKey(l, e, now).1 else e
    case Failure(key, now) => if key == k then Some(FailKey(l, e, now)) else e
    case Success(key, _) => if key == k then None else e
    case Prune(now) => if e.Some? && now - e.value.window > l.failWindow then None else e
  }

  /** Operations on other keys leave the entry alone. */
  lemma KeyApplied(l: Limits, ops: seq<Op>, n: nat, k: string)
    requires 0 < n <= |ops|
    ensures EntryAt(l, ops, n, k) == ApplyKey(l, EntryAt(l, ops, n - 1, k), ops[n - 1], k)
  {
  }

  lemma {:induction false} ClearedIsUnlocked(l: Limits, ops: seq<Op>, n: nat, k: string)
    requires n <= |ops| && Cleared(l, ops, n, k)
    ensures var e := EntryAt(l, ops, n, k); e.None? || e.value.until.None?
  {
    hide At;
    KeyApplied(l, ops, n, k);
    if !On(ops[n - 1], k) { ClearedIsUnlocked(l, ops, n - 1, k); }
  }

  // ---- counting episodes ----

  /** A failure that finds no entry, or one past its window, begins a new episode. */
  predicate StartsEpisode(l: Limits, ops: seq<Op>, n: nat, k: string)
    requires n < |ops|
  {
    && FailureOf(ops[n], k)
    && var e := EntryAt(l, ops, n, k);
       e.None? || ops[n].at - e.value.window > l.failWindow
  }

  ghost predicate NoStartBetween(l: Limits, ops: seq<Op>, i: nat, n: nat, k: string)
    requires n <= |ops|
  {
    forall j :: i < j < n ==> !StartsEpisode(l, ops, j, k)
  }

  /** While the episode begun at w lasts, the entry is there with a window no older; once it
      is gone, a lockout has passed. */
  predicate SinceStart(l: Limits, e: Option<Entry>, w: int, now: int) {
    match e
    case None => w + l.lockout <= now
    case Some(f) =>
      w <= f.window && (if f.until.None? then f.window == w else w + l.lockout <= f.until.value)
  }

  lemma SinceStartStep(l: Limits, e: Option<Entry>, op: Op, k: string, w: int, now: int)
    requires l.Sane() && w <= now <= op.at && SinceStart(l, e, w, now)
    requires !SuccessOf(op, k)
    requires FailureOf(op, k) ==> e.Some? && op.at - e.value.window <= l.failWindow
    ensures SinceStart(l, ApplyKey(l, e, op, k), w, op.at)
  {
  }

  lemma {:induction false} StillSince(l: Limits, ops: seq<Op>, i: nat, n: nat, k: string, start: int)
    requires l.Sane() && Monotone(start, ops)
    requires i < n <= |ops| && NoSuccess(ops, k, i, n) && StartsEpisode(l, ops, i, k) && NoStartBetween(l, ops, i, n, k)
    ensures SinceStart(l, EntryAt(l, ops, n, k), ops[i].at, ops[n - 1].at)
    decreases n
  {
    hide At;
    KeyApplied(l, ops, n, k);
    if i < n - 1 {
      StillSince(l, ops, i, n - 1, k, start);
      assert !StartsEpisode(l, ops, n - 1, k);
      SinceStartStep(l, EntryAt(l, ops, n - 1, k), ops[n - 1], k, ops[i].at, ops[n - 2].at);
    }
  }

  /** With no success in between, each episode of a key begins at least one lockout after
      every earlier one, even when its attempts overlap. */
  lemma {:induction false} EpisodesApart(l: Limits, ops: seq<Op>, i: nat, j: nat, k: string, start: int)
    requires l.Sane() && Monotone(start, ops)
    requires i < j < |ops| && NoSuccess(ops, k, i, j) && StartsEpisode(l, ops, i, k) && StartsEpisode(l, ops, j, k)
    ensures ops[i].at + l.lockout <= ops[j].at
    decreases j - i
  {
    if m :| i < m < j && StartsEpisode(l, ops, m, k) {
      EpisodesApart(l, ops, i, m, k, start);
    } else {
      StillSince(l, ops, i, j, k, start);
    }
  }

  /** When the key last failed before n. */
  function LastFailureAt(ops: seq<Op>, k: string, n: nat): int
    requires n <= |ops| && Failures(ops, k, 0, n) > 0
  {
    if FailureOf(ops[n - 1], k) then ops[n - 1].at else LastFailureAt(ops, k, n - 1)
  }

  /** The entry of an episode begun at w with c failures, the last of them at t. */
  predicate InEpisode(l: Limits, e: Option<Entry>, w: int, c: int, t: int, now: int) {
    && 1 <= c <= l.maxFails
    && if c < l.maxFails then e == Some(Entry(c, w, None)) || (e.None? && now - w > l.failWindow)
       else e == Some(Entry(0, t, Some(t + l.lockout))) || (e.None? && t + l.lockout <= now)
  }

  lemma EpisodeStep(l: Limits, e: Option<Entry>, op: Op, k: string, w: int, c: int, t: int, now: int)
    requires l.Sane() && now <= op.at && InEpisode(l, e, w, c, t, now)
    requires !SuccessOf(op, k)
    requires FailureOf(op, k) ==> e.Some? && e.value.until.None? && op.at - e.value.window <= l.failWindow
    ensures if FailureOf(op, k) then InEpisode(l, ApplyKey(l, e, op, k), w, c + 1, op.at, op.at)
            else InEpisode(l, ApplyKey(l, e, op, k), w, c, t, op.at)
  {
  }

  /** Where a key stands n operations into a run, its latest episode begun at i. */
  lemma {:induction false} EpisodeExact(l: Limits, ops: seq<Op>, i: nat, n: nat, k: string, start: int)
    requires l.Sane() && Monotone(start, ops) && Sequential(l, ops, k)
    requires i < n <= |ops| && NoSuccess(ops, k, i, n) && StartsEpisode(l, ops, i, k) && NoStartBetween(l, ops, i, n, k)
    ensures Failures(ops, k, 0, n) > 0
    ensures InEpisode(l, EntryAt(l, ops, n, k), ops[i].at, Failures(ops, k, i, n), LastFailureAt(ops, k, n), ops[n - 1].at)
    decreases n
  {
    hide At, Cleared;
    KeyApplied(l, ops, n, k);
    FailuresSplit(ops, k, 0, i, n);
    if i == n - 1 {
      assert Failures(ops, k, i, n - 1) == 0;
    } else {
      EpisodeExact(l, ops, i, n - 1, k, start);
      assert !StartsEpisode(l, ops, n - 1, k);
      if FailureOf(ops[n - 1], k) { ClearedIsUnlocked(l, ops, n - 1, k); }
      EpisodeStep(l, EntryAt(l, ops, n - 1, k), ops[n - 1], k, ops[i].at, Failures(ops, k, i, n - 1),
                  LastFailureAt(ops, k, n - 1), ops[n - 2].at);
    }
  }

  /** From one start up to the next or to a success, at most maxFails failures are let
      through. */
  lemma EpisodeQuota(l: Limits, ops: seq<Op>, i: nat, n: nat, k: string, start: int)
    requires l.Sane() && Monotone(start, ops) && Sequential(l, ops, k)
    requires i < n <= |ops| && NoSuccess(ops, k, i, n) && StartsEpisode(l, ops, i, k) && NoStartBetween(l, ops, i, n, k)
    ensures 1 <= Failures(ops, k, i, n) <= l.maxFails
  {
    EpisodeExact(l, ops, i, n, k, start);
  }

  /** Within an episode an attempt is refused exactly when maxFails failures have been let
      through and less than a lockout has passed since the last of them. */
  lemma LockoutExact(l: Limits, ops: seq<Op>, i: nat, n: nat, k: string, start: int, now: int)
    requires l.Sane() && Monotone(start, ops) && Sequential(l, ops, k)
    requires i < n <= |ops| && NoSuccess(ops, k, i, n) && StartsEpisode(l, ops, i, k) && NoStartBetween(l, ops, i, n, k) && ops[n - 1].at <= now
    ensures Failures(ops, k, 0, n) > 0
    ensures Apply(l, At(l, ops, n), Check(k, now)).1 == [false]
            <==> Failures(ops, k, i, n) == l.maxFails && now < LastFailureAt(ops, k, n) + l.lockout
  {
    EpisodeExact(l, ops, i, n, k, start);
  }

  /** At the login, ten failures refuse for ten minutes; on the proxy port, thirty for one. */
  lemma LockoutInNumbers(ops: seq<Op>, i: nat, n: nat, k: string, start: int, now: int, login: bool)
    requires var l := if login then LOGIN_LIMITS else PROXY_LIMITS;
             && Monotone(start, ops) && Sequential(l, ops, k) && i < n <= |ops| && NoSuccess(ops, k, i, n)
             && StartsEpisode(l, ops, i, k) && NoStartBetween(l, ops, i, n, k) && ops[n - 1].at <= now
    ensures var l := if login then LOGIN_LIMITS else PROXY_LIMITS;
            && Failures(ops, k, 0, n) > 0
            && (Apply(l, At(l, ops, n), Check(k, now)).1 == [false]
                <==> Failures(ops, k, i, n) == (if login then 10 else 30)
                     && now < LastFailureAt(ops, k, n) + (if login then 600 else 60))
  {
    hide At, Apply, Monotone, Sequential, NoSuccess, StartsEpisode, NoStartBetween;
    LockoutExact(if login then LOGIN_LIMITS else PROXY_LIMITS, ops, i, n, k, start, now);
  }

  /** An episode is over, at the login fifteen minutes after it began, on the proxy port ten:
      a later failure begins the next. */
  lemma WindowInNumbers(e: Entry, now: int)
    requires e.until.None? && 0 <= e.count < 9
    ensures FailKey(LOGIN_LIMITS, Some(e), now).count == (if now - e.window > 900 then 1 else e.count + 1)
    ensures FailKey(PROXY_LIMITS, Some(e), now).count == (if now - e.window > 600 then 1 else e.count + 1)
  {
  }

  // ---- attempts that overlap ----

  predicate Admitted(l: Limits, ops: seq<Op>, n: nat, k: string)
    requires n < |ops|
  {
    ops[n].Check? && ops[n].key == k && CheckKey(l, EntryAt(l, ops, n, k), ops[n].at).0
  }

  function Bit(b: bool): nat { if b then 1 else 0 }

  /** Never more than w attempts of the key are under way: live[n] of them after n operations.
      An admitted check begins one, a failure ends one, and others end at any time. */
  ghost predicate Overlapping(l: Limits, ops: seq<Op>, k: string, w: nat, live: seq<nat>) {
    && |live| == |ops| + 1 && live[0] == 0
    && forall n :: 0 <= n < |ops| ==> NextLive(l, ops, k, w, live, n)
  }

  predicate NextLive(l: Limits, ops: seq<Op>, k: string, w: nat, live: seq<nat>, n: nat)
    requires n < |ops| && |live| == |ops| + 1
  {
    live[n + 1] <= w && live[n + 1] + Bit(FailureOf(ops[n], k)) <= live[n] + Bit(Admitted(l, ops, n, k))
  }

  /** After c failures of an episode with n attempts under way: until the key is locked the
      entry counts them, and then only attempts begun before can still fail. */
  predicate OverlapState(l: Limits, e: Option<Entry>, c: int, n: int, w: int) {
    match e
    case None => c <= l.maxFails + w - 1
    case Some(f) => if f.until.None? then f.count == c < l.maxFails else c + n <= l.maxFails + w - 1
  }

  lemma OverlapStep(l: Limits, e: Option<Entry>, op: Op, k: string, c: int, n: nat, n': nat, w: nat)
    requires l.Sane() && n <= w && OverlapState(l, e, c, n, w) && !SuccessOf(op, k)
    requires FailureOf(op, k) ==> e.Some? && op.at - e.value.window <= l.failWindow
    requires n' + Bit(FailureOf(op, k)) <= n + Bit(op.Check? && op.key == k && CheckKey(l, e, op.at).0)
    ensures OverlapState(l, ApplyKey(l, e, op, k), c + Bit(FailureOf(op, k)), n', w)
  {
  }

  lemma LiveAt(l: Limits, ops: seq<Op>, k: string, w: nat, live: seq<nat>, n: nat)
    requires Overlapping(l, ops, k, w, live) && n < |ops|
    ensures |live| == |ops| + 1 && live[n] <= w && NextLive(l, ops, k, w, live, n)
  {
    if n > 0 { assert NextLive(l, ops, k, w, live, n - 1); }
  }

  /** An operation that goes on with an episode. */
  lemma Continues(l: Limits, ops: seq<Op>, i: nat, n: nat, k: string)
    requires i < n - 1 && n <= |ops| && NoSuccess(ops, k, i, n) && NoStartBetween(l, ops, i, n, k)
    ensures NoSuccess(ops, k, i, n - 1) && NoStartBetween(l, ops, i, n - 1, k) && !SuccessOf(ops[n - 1], k)
    ensures var e := EntryAt(l, ops, n - 1, k);
            FailureOf(ops[n - 1], k) ==> e.Some? && ops[n - 1].at - e.value.window <= l.failWindow
  {
    hide At;
    assert !StartsEpisode(l, ops, n - 1, k);
  }

  /** From one start up to the next, overlapping attempts let w - 1 more failures through. */
  lemma {:induction false} OverlapQuota(l: Limits, ops: seq<Op>, i: nat, n: nat, k: string, start: int, w: nat, live: seq<nat>)
    requires l.Sane() && Monotone(start, ops) && w > 0 && Overlapping(l, ops, k, w, live)
    requires i < n <= |ops| && NoSuccess(ops, k, i, n) && StartsEpisode(l, ops, i, k) && NoStartBetween(l, ops, i, n, k)
    ensures OverlapState(l, EntryAt(l, ops, n, k), Failures(ops, k, i, n), live[n], w)
    ensures 1 <= Failures(ops, k, i, n) <= l.maxFails + w - 1
    decreases n
  {
    hide At;
    KeyApplied(l, ops, n, k);
    LiveAt(l, ops, k, w, live, n - 1);
    if i == n - 1 {
      assert Failures(ops, k, i, n - 1) == 0;
    } else {
      hide NoSuccess, NoStartBetween, StartsEpisode, OverlapState, Overlapping, Monotone;
      Continues(l, ops, i, n, k);
      OverlapQuota(l, ops, i, n - 1, k, start, w, live);
      OverlapStep(l, EntryAt(l, ops, n - 1, k), ops[n - 1], k, Failures(ops, k, i, n - 1), live[n - 1], live[n], w);
    }
  }

  /** One at a time is an overlap of one. */
  lemma SequentialOverlap(l: Limits, ops: seq<Op>, k: string) returns (live: seq<nat>)
    requires Sequential(l, ops, k)
    ensures Overlapping(l, ops, k, 1, live)
  {
    hide At, CheckKey;
    live := seq(|ops| + 1, n requires 0 <= n <= |ops| => Bit(Cleared(l, ops, n, k)));
    forall n | 0 <= n < |ops| ensures NextLive(l, ops, k, 1, live, n) {
      assert live[n + 1] == Bit(Cleared(l, ops, n + 1, k)) && live[n] == Bit(Cleared(l, ops, n, k));
    }
  }

  // ---- how many failures a run lets through ----

  lemma {:induction false} NothingYet(l: Limits, ops: seq<Op>, lo: nat, n: nat, k: string)
    requires lo <= n <= |ops| && Clean(ops, k, lo) && Failures(ops, k, lo, n) == 0
    ensures EntryAt(l, ops, n, k).None?
    decreases n
  {
    if n > 0 {
      hide At;
      KeyApplied(l, ops, n, k);
      if lo < n { NothingYet(l, ops, lo, n - 1, k); }
    }
  }

  /** A key that has not failed since its last success is never refused. */
  lemma NoFailureNoRefusal(l: Limits, ops: seq<Op>, lo: nat, n: nat, k: string, now: int)
    requires lo <= n <= |ops| && Clean(ops, k, lo) && Failures(ops, k, lo, n) == 0
    ensures Apply(l, At(l, ops, n), Check(k, now)).1 == [true]
  {
    hide At;
    NothingYet(l, ops, lo, n, k);
  }

  /** When the key first failed at or after lo. */
  function FirstFailureAt(ops: seq<Op>, k: string, lo: nat, n: nat): int
    requires lo <= n <= |ops| && Failures(ops, k, lo, n) > 0
  {
    if Failures(ops, k, lo, n - 1) > 0 then FirstFailureAt(ops, k, lo, n - 1) else ops[n - 1].at
  }

  /** What so many episodes of so many failures allow, and the earliest the last of them can
      have begun. */
  function Quota(per: nat, episodes: nat): int { episodes * per }

  function BegunAt(l: Limits, first: int, episodes: nat): int { first + (episodes - 1) * l.lockout }

  lemma OneMoreEpisode(l: Limits, per: nat, first: int, episodes: nat)
    ensures Quota(per, episodes + 1) == Quota(per, episodes) + per && Quota(per, 0) == 0
    ensures BegunAt(l, first, episodes + 1) == BegunAt(l, first, episodes) + l.lockout
    ensures BegunAt(l, first, 1) == first
  {
    assert (episodes + 1) * per == episodes * per + per;
    assert episodes * l.lockout == (episodes - 1) * l.lockout + l.lockout;
  }

  /** The episodes begun from lo up to n, the latest of them at `last`. */
  lemma {:induction false} EpisodesBegun(l: Limits, ops: seq<Op>, lo: nat, n: nat, k: string, start: int, w: nat, live: seq<nat>)
    returns (begun: nat, last: nat)
    requires l.Sane() && Monotone(start, ops) && w > 0 && Overlapping(l, ops, k, w, live)
    requires lo <= n <= |ops| && Clean(ops, k, lo) && NoSuccess(ops, k, lo, n) && Failures(ops, k, lo, n) > 0
    ensures lo <= last < n && StartsEpisode(l, ops, last, k) && NoStartBetween(l, ops, last, n, k)
    ensures begun > 0 && BegunAt(l, FirstFailureAt(ops, k, lo, n), begun) <= ops[last].at
    ensures Failures(ops, k, lo, last) <= Quota(l.maxFails + w - 1, begun - 1)
    decreases n
  {
    hide At, Quota, BegunAt, Overlapping, Clean;
    var first, per := FirstFailureAt(ops, k, lo, n), l.maxFails + w - 1;
    if Failures(ops, k, lo, n - 1) == 0 {
      NothingYet(l, ops, lo, n - 1, k);
      OneMoreEpisode(l, per, first, 0);
      begun, last := 1, n - 1;
    } else {
      begun, last := EpisodesBegun(l, ops, lo, n - 1, k, start, w, live);
      if StartsEpisode(l, ops, n - 1, k) {
        EpisodesApart(l, ops, last, n - 1, k, start);
        OverlapQuota(l, ops, last, n - 1, k, start, w, live);
        FailuresSplit(ops, k, lo, last, n - 1);
        OneMoreEpisode(l, per, first, begun);
        OneMoreEpisode(l, per, first, begun - 1);
        begun, last := begun + 1, n - 1;
      }
    }
  }

  /** So many failures for each lockout begun. */
  function MostFailures(l: Limits, per: nat, elapsed: int): int
    requires l.Sane()
  {
    per * (elapsed / l.lockout + 1)
  }

  /** With at most w attempts of the key under way at once, at most
      (maxFails + w - 1) * (T / lockout + 1) failures are let through in the time T since the
      first after its last success. Other keys may do anything, and prunes come anywhere. */
  lemma OverlapBound(l: Limits, ops: seq<Op>, lo: nat, k: string, start: int, w: nat, live: seq<nat>)
    requires l.Sane() && Monotone(start, ops) && w > 0 && Overlapping(l, ops, k, w, live)
    requires lo <= |ops| && Clean(ops, k, lo) && NoSuccess(ops, k, lo, |ops|) && Failures(ops, k, lo, |ops|) > 0
    ensures Failures(ops, k, lo, |ops|)
            <= MostFailures(l, l.maxFails + w - 1, ops[|ops| - 1].at - FirstFailureAt(ops, k, lo, |ops|))
  {
    hide Quota, BegunAt, MostFailures, Overlapping, StartsEpisode, NoStartBetween, FirstFailureAt, Clean;
    var n, first, per := |ops|, FirstFailureAt(ops, k, lo, |ops|), l.maxFails + w - 1;
    var begun, last := EpisodesBegun(l, ops, lo, n, k, start, w, live);
    OverlapQuota(l, ops, last, n, k, start, w, live);
    FailuresSplit(ops, k, lo, last, n);
    OneMoreEpisode(l, per, first, begun - 1);
    assert ops[last].at <= ops[n - 1].at;
    QuotaToBound(l, per, Failures(ops, k, lo, n), begun, first, ops[n - 1].at);
  }

  /** Attempts one at a time: maxFails failures for each lockout begun. */
  lemma FailureBound(l: Limits, ops: seq<Op>, lo: nat, k: string, start: int)
    requires l.Sane() && Monotone(start, ops) && Sequential(l, ops, k)
    requires lo <= |ops| && Clean(ops, k, lo) && NoSuccess(ops, k, lo, |ops|) && Failures(ops, k, lo, |ops|) > 0
    ensures Failures(ops, k, lo, |ops|)
            <= MostFailures(l, l.maxFails, ops[|ops| - 1].at - FirstFailureAt(ops, k, lo, |ops|))
  {
    hide MostFailures, Sequential, Overlapping, FirstFailureAt, Clean, NoSuccess;
    var live := SequentialOverlap(l, ops, k);
    OverlapBound(l, ops, lo, k, start, 1, live);
  }

  lemma QuotaToBound(l: Limits, per: nat, n: int, begun: nat, first: int, now: int)
    requires l.Sane() && n <= Quota(per, begun) && BegunAt(l, first, begun) <= now
    ensures n <= MostFailures(l, per, now - first)
  {
    var elapsed := now - first;
    QuotientAtLeast(begun - 1, l.lockout, elapsed);
    MulMono(begun, elapsed / l.lockout + 1, per);
  }

  /** n + n + ... + n, j times. */
  function Times(j: nat, n: int): int { if j == 0 then 0 else Times(j - 1, n) + n }

  lemma {:induction false} TimesIsProduct(j: nat, n: int)
    ensures Times(j, n) == j * n
  {
    if j > 0 {
      TimesIsProduct(j - 1, n);
      assert (j - 1) * n + n == j * n;
    }
  }

  /** Everything about the first n operations is the same in a longer run. */
  lemma {:induction false} SamePrefix(l: Limits, a: seq<Op>, b: seq<Op>, n: nat, k: string)
    requires n <= |a|
    ensures At(l, a + b, n) == At(l, a, n)
    ensures Failures(a + b, k, 0, n) == Failures(a, k, 0, n)
    ensures Failures(a, k, 0, n) > 0 ==> FirstFailureAt(a + b, k, 0, n) == FirstFailureAt(a, k, 0, n)
    ensures Cleared(l, a + b, n, k) == Cleared(l, a, n, k)
  {
    if n > 0 {
      SamePrefix(l, a, b, n - 1, k);
      assert (a + b)[n - 1] == a[n - 1];
    }
  }

  /** A run of attempts on k up to time t, each let through, the first at 0. */
  ghost predicate Attempts(l: Limits, ops: seq<Op>, k: string, t: int) {
    && Monotone(0, ops) && NoSuccess(ops, k, 0, |ops|) && Sequential(l, ops, k)
    && (forall i :: 0 <= i < |ops| ==> ops[i].at <= t)
    && (ops == [] || (Failures(ops, k, 0, |ops|) > 0 && FirstFailureAt(ops, k, 0, |ops|) == 0 && ops[|ops| - 1].at == t))
  }

  function OneMore(ops: seq<Op>, k: string, t: int): seq<Op> { ops + [Check(k, t), Failure(k, t)] }

  lemma OneMoreEntry(l: Limits, ops: seq<Op>, k: string, t: int)
    ensures var more, n := OneMore(ops, k, t), |ops|;
            && At(l, more, n) == At(l, ops, n)
            && EntryAt(l, more, n + 2, k) == Some(FailKey(l, CheckKey(l, EntryAt(l, ops, n, k), t).1, t))
            && Failures(more, k, 0, n + 2) == Failures(ops, k, 0, n) + 1
            && FirstFailureAt(more, k, 0, n + 2) == (if Failures(ops, k, 0, n) > 0 then FirstFailureAt(ops, k, 0, n) else t)
  {
    hide At, CheckKey, FailKey;
    var more, n := OneMore(ops, k, t), |ops|;
    SamePrefix(l, ops, [Check(k, t), Failure(k, t)], n, k);
    KeyApplied(l, more, n + 1, k);
    KeyApplied(l, more, n + 2, k);
    assert Failures(more, k, 0, n + 1) == Failures(ops, k, 0, n);
  }

  lemma OneMoreSequential(l: Limits, ops: seq<Op>, k: string, t: int)
    requires Sequential(l, ops, k) && CheckKey(l, EntryAt(l, ops, |ops|, k), t).0
    ensures Sequential(l, OneMore(ops, k, t), k)
  {
    hide At, CheckKey;
    var more, n := OneMore(ops, k, t), |ops|;
    forall m | 0 <= m < n + 2 && FailureOf(more[m], k) ensures Cleared(l, more, m, k) {
      if m < n {
        assert more[m] == ops[m];
        SamePrefix(l, ops, [Check(k, t), Failure(k, t)], m, k);
      } else {
        assert m == n + 1 && more[n] == Check(k, t);
        SamePrefix(l, ops, [Check(k, t), Failure(k, t)], n, k);
      }
    }
  }

  lemma OneMoreAttempt(l: Limits, ops: seq<Op>, k: string, last: int, t: int)
    requires Attempts(l, ops, k, last) && last <= t && 0 <= t && CheckKey(l, EntryAt(l, ops, |ops|, k), t).0
    requires ops == [] ==> t == 0
    ensures Attempts(l, OneMore(ops, k, t), k, t)
  {
    OneMoreSequential(l, ops, k, t);
    hide At, CheckKey, Sequential, EntryAt;
    OneMoreEntry(l, ops, k, t);
    var more, n := OneMore(ops, k, t), |ops|;
    assert forall i :: 0 <= i < n ==> more[i] == ops[i];
  }

  /** j whole bursts of maxFails attempts, one burst per lockout, and c attempts of the next. */
  function Bursts(l: Limits, k: string, j: nat, c: nat): seq<Op>
    requires l.Sane()
    decreases j, c
  {
    if c > 0 then OneMore(Bursts(l, k, j, c - 1), k, Times(j, l.lockout))
    else if j > 0 then Bursts(l, k, j - 1, l.maxFails)
    else []
  }

  /** What c attempts at time t leave behind, `first` when no burst came before. */
  function BurstEntry(l: Limits, t: int, first: bool, c: nat): Option<Entry> {
    if c >= l.maxFails then Some(Entry(0, t, Some(t + l.lockout)))
    else if c > 0 then Some(Entry(c, t, None))
    else if first then None
    else Some(Entry(0, t - l.lockout, Some(t)))
  }

  lemma BurstGrows(l: Limits, t: int, first: bool, c: nat)
    requires l.Sane() && c < l.maxFails
    ensures var (ok, e) := CheckKey(l, BurstEntry(l, t, first, c), t);
            ok && Some(FailKey(l, e, t)) == BurstEntry(l, t, first, c + 1)
  {
  }

  /** Every attempt of the bursts was let through, and the key stands where the last one left it. */
  ghost predicate AllAdmitted(l: Limits, k: string, j: nat, c: nat)
    requires l.Sane()
  {
    var ops := Bursts(l, k, j, c);
    && Attempts(l, ops, k, if c > 0 || j == 0 then Times(j, l.lockout) else Times(j - 1, l.lockout))
    && (ops == [] <==> j == 0 && c == 0)
    && Failures(ops, k, 0, |ops|) == Times(j, l.maxFails) + c
    && EntryAt(l, ops, |ops|, k) == BurstEntry(l, Times(j, l.lockout), j == 0, c)
  }

  lemma {:induction false} TimesPositive(j: nat, n: nat)
    ensures Times(j, n) >= 0
  {
    if j > 0 { TimesPositive(j - 1, n); }
  }

  lemma AttemptAdmitted(l: Limits, k: string, j: nat, c: nat)
    requires l.Sane() && c < l.maxFails && AllAdmitted(l, k, j, c)
    ensures AllAdmitted(l, k, j, c + 1)
  {
    hide Attempts, EntryAt, Failures, FailKey, CheckKey, BurstEntry;
    var t, ops := Times(j, l.lockout), Bursts(l, k, j, c);
    TimesPositive(j, l.lockout);
    BurstGrows(l, t, j == 0, c);
    OneMoreEntry(l, ops, k, t);
    OneMoreAttempt(l, ops, k, if c > 0 || j == 0 then t else Times(j - 1, l.lockout), t);
  }

  lemma NextBurst(l: Limits, k: string, j: nat)
    requires l.Sane() && AllAdmitted(l, k, j, l.maxFails)
    ensures AllAdmitted(l, k, j + 1, 0)
  {
    hide Attempts, EntryAt, Failures;
  }

  lemma NoBursts(l: Limits, k: string)
    requires l.Sane()
    ensures AllAdmitted(l, k, 0, 0)
  {
  }

  lemma {:induction false} BurstsAllAdmitted(l: Limits, k: string, j: nat, c: nat)
    requires l.Sane() && c <= l.maxFails
    ensures AllAdmitted(l, k, j, c)
    decreases j, c
  {
    if c > 0 {
      hide AllAdmitted;
      BurstsAllAdmitted(l, k, j, c - 1);
      AttemptAdmitted(l, k, j, c - 1);
    } else if j > 0 {
      hide AllAdmitted;
      BurstsAllAdmitted(l, k, j - 1, l.maxFails);
      NextBurst(l, k, j - 1);
    } else {
      hide AllAdmitted;
      NoBursts(l, k);
    }
  }

  lemma WholeLockouts(l: Limits, lockouts: nat)
    requires l.Sane()
    ensures MostFailures(l, l.maxFails, lockouts * l.lockout) == (lockouts + 1) * l.maxFails
  {
    var elapsed := lockouts * l.lockout;
    QuotientAtLeast(lockouts, l.lockout, elapsed);
    MulCancel(elapsed / l.lockout, lockouts + 1, l.lockout);
  }

  /** The bound is reached: for every number of whole lockouts some run lets exactly that many through. */
  lemma FailureBoundTight(l: Limits, k: string, lockouts: nat)
    requires l.Sane()
    ensures var ops := Bursts(l, k, lockouts, l.maxFails);
            && Monotone(0, ops) && NoSuccess(ops, k, 0, |ops|) && Sequential(l, ops, k) && Failures(ops, k, 0, |ops|) > 0
            && ops[|ops| - 1].at - FirstFailureAt(ops, k, 0, |ops|) == lockouts * l.lockout
            && Failures(ops, k, 0, |ops|) == MostFailures(l, l.maxFails, lockouts * l.lockout)
  {
    hide Sequential, Failures, FirstFailureAt, MostFailures, Bursts;
    BurstsAllAdmitted(l, k, lockouts, l.maxFails);
    WholeLockouts(l, lockouts);
    TimesIsProduct(lockouts, l.lockout);
    TimesIsProduct(lockouts + 1, l.maxFails);
  }

  // ---- the limiters themselves ----

  class FailLimiter {
    const limits: Limits
    var fails: Table

    constructor (l: Limits)
      requires l.Sane()
      ensures limits == l && fails == map[]
    {
      limits, fails := l, map[];
    }

    method Allowed(key: string, now: int) returns (ok: bool)
      modifies this
      ensures (fails, [ok]) == Apply(limits, old(fails), Check(key, now))
    {
      if key !in fails {
        assert fails == fails - {key};
        return true;
      }
      var f := fails[key];
      assert fails == fails[key := f];
      if f.until.Some? {
        if now < f.until.value {
          return false;
        }
        fails := fails - {key};
        return true;
      }
      if now - f.window > limits.failWindow {
        fails := fails - {key};
      }
      return true;
    }

    method Fail(key: string, now: int)
      modifies this
      ensures fails == Apply(limits, old(fails), Failure(key, now)).0
    {
      if key !in fails || now - fails[key].window > limits.failWindow {
        fails := fails[key := Entry(0, now, None)];
      }
      var f := fails[key];
      f := f.(count := f.count + 1);
      if f.count >= limits.maxFails {
        f := Entry(0, now, Some(now + limits.lockout));
      }
      fails := fails[key := f];
    }

    method Forget(key: string)
      modifies this
      ensures fails == old(fails) - {key}
    {
      fails := fails - {key};
    }

    method PruneExpired(now: int)
      modifies this
      ensures fails == Apply(limits, old(fails), Prune(now)).0
      ensures forall k :: k in fails <==> k in old(fails) && now - old(fails)[k].window <= limits.failWindow
      ensures forall k :: k in fails ==> fails[k] == old(fails)[k]
    {
      var keys := fails.Keys;
      while keys != {}
        invariant keys <= old(fails).Keys
        invariant forall k :: k in fails <==> k in old(fails) && (k in keys || now - old(fails)[k].window <= limits.failWindow)
        invariant forall k :: k in fails ==> fails[k] == old(fails)[k]
      {
        var ip :| ip in keys;
        if ip in fails && now - fails[ip].window > limits.failWindow {
          fails := fails - {ip};
        }
        keys := keys - {ip};
      }
    }
  }

  /** The proxy's three limiters; the account limiter folds the name and ignores an empty one. */
  class AuthThrottle {
    const login: FailLimiter
    const account: FailLimiter
    const proxyAuth: FailLimiter

    constructor ()
      ensures login.limits == LOGIN_LIMITS && account.limits == LOGIN_LIMITS && proxyAuth.limits == PROXY_LIMITS
      ensures login.fails == account.fails == proxyAuth.fails == map[]
      ensures login != account && account != proxyAuth && login != proxyAuth
    {
      login := new FailLimiter(LOGIN_LIMITS);
      account := new FailLimiter(LOGIN_LIMITS);
      proxyAuth := new FailLimiter(PROXY_LIMITS);
    }

    method AccountAllowed(username: string, now: int) returns (ok: bool)
      modifies account
      ensures if username == "" then ok && account.fails == old(account.fails)
              else (account.fails, [ok]) == Apply(account.limits, old(account.fails), Check(ToLower(username), now))
    {
      if username == "" {
        return true;
      }
      ok := account.Allowed(ToLower(username), now);
    }

    method AccountFail(username: string, now: int)
      modifies account
      ensures account.fails == if username == "" then old(account.fails)
                               else Apply(account.limits, old(account.fails), Failure(ToLower(username), now)).0
    {
      if username != "" {
        account.Fail(ToLower(username), now);
      }
    }

    method AccountOK(username: string)
      modifies account
      ensures account.fails == if username == "" then old(account.fails) else old(account.fails) - {ToLower(username)}
    {
      if username != "" {
        account.Forget(ToLower(username));
      }
    }

    method PruneAuthFailures(now: int)
      requires login != account && account != proxyAuth && login != proxyAuth
      modifies login, account, proxyAuth
      ensures login.fails == Apply(login.limits, old(login.fails), Prune(now)).0
      ensures account.fails == Apply(account.limits, old(account.fails), Prune(now)).0
      ensures proxyAuth.fails == Apply(proxyAuth.limits, old(proxyAuth.fails), Prune(now)).0
    {
      login.PruneExpired(now);
      account.PruneExpired(now);
      proxyAuth.PruneExpired(now);
    }
  }
}
