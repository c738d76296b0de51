/** The connection admission protocol of proxy.go: every atomic action of
    tryEnterConn and exitConn is one step, and any number of requests interleave.
    A request always has exactly one next action, so a schedule is a list of
    request numbers. Counters are 32-bit and wrap. */
module Admission {
  import opened Wrappers

  /** Conversion to int32: two's-complement wrap-around. */
  function Wrap32(x: int): int {
    if -0x8000_0000 <= x < 0x8000_0000 then x else (x + 0x8000_0000) % 0x1_0000_0000 - 0x8000_0000
  }

  /** It is the one 32-bit number congruent to x. */
  lemma WrapExact(x: int)
    ensures -0x8000_0000 <= Wrap32(x) < 0x8000_0000 && (Wrap32(x) - x) % 0x1_0000_0000 == 0
  {
    var y := x + 0x8000_0000;
    assert y == y / 0x1_0000_0000 * 0x1_0000_0000 + y % 0x1_0000_0000;
  }

  datatype Phase =
    | Arrived              // tryEnterConn not started
    | Looked               // connMu held, the user's counter exists
    | UserAdded            // connMu held, user counter incremented
    | UserOver             // connMu held, counter read above the cap
    | UserUndone           // connMu held, user counter rolled back
    | UserPassed           // connMu held, cap check passed
    | NeedGlobal           // connMu released
    | GlobalAdded          // global counter incremented
    | GlobalOver           // global counter read above the cap
    | GlobalUndone         // global counter rolled back, user slot still held
    | UndoLocked           // connMu held, about to return the user slot
    | UndoDone             // connMu held, user slot returned
    | Admitted             // reservation succeeded, connection in use
    | ExitStart            // exitConn has decremented the global counter
    | ExitLocked(found: bool)  // connMu held, counter looked up
    | ExitReady(found: bool)   // connMu released, user decrement pending
    | Done                 // exitConn returned
    | Rejected(status: int)

  /** One request: the caller, the caps of its config snapshot, and where it is. */
  datatype Conn = Conn(user: Option<string>, maxConns: int, defaultMaxConns: int, maxGlobal: int, phase: Phase)
  {
    function Uid(): string { if user.Some? then user.value else "" }

    function Cap(): int { if maxConns == 0 then defaultMaxConns else maxConns }

    predicate InCritical() {
      phase.Looked? || phase.UserAdded? || phase.UserOver? || phase.UserUndone? || phase.UserPassed? ||
      phase.UndoLocked? || phase.UndoDone? || phase.ExitLocked?
    }

    predicate Finished() { phase.Done? || phase.Rejected? }

    /** Phases that only a request with a user goes through. */
    predicate WellPhased() {
      user.None? ==> phase.Arrived? || phase.GlobalAdded? || phase.GlobalOver? || phase.Admitted? || Finished()
    }
  }

  /** What all requests share: the two counters and the holder of connMu. */
  datatype Shared = Shared(globalConns: int, userConns: map<string, int>, connMu: Option<nat>)

  datatype State = State(conns: seq<Conn>, shared: Shared)

  /** What is being counted: slots a counter stands for, and the requests a cap is about. */
  datatype Tally = UserSlot(uid: string) | GlobalSlot | PastUserCheck(puid: string) | InUse | InUseBy(iuid: string) | Deciding

  /** The caller passed its per-user check and has not returned the slot. */
  predicate PastCheck(c: Conn, u: string) {
    && c.user == Some(u)
    && (|| c.phase.UserPassed? || c.phase.NeedGlobal? || c.phase.GlobalAdded? || c.phase.GlobalOver?
        || c.phase.GlobalUndone? || c.phase.UndoLocked? || c.phase.Admitted? || c.phase.ExitStart?
        || c.phase.ExitLocked? || c.phase.ExitReady?
        // exitConn("") returns before the user decrement: the slot of a user whose ID is empty is never returned
        || (c.phase.Done? && u == ""))
  }

  predicate Counted(c: Conn, k: Tally) {
    match k
    case UserSlot(u) => PastCheck(c, u) || (c.user == Some(u) && (c.phase.UserAdded? || c.phase.UserOver?))
    case PastUserCheck(u) => PastCheck(c, u)
    case GlobalSlot => c.phase.GlobalAdded? || c.phase.GlobalOver? || c.phase.Admitted?
    case InUse => c.phase.Admitted?
    case InUseBy(u) => c.phase.Admitted? && c.user == Some(u)
    case Deciding => c.phase.GlobalAdded? || c.phase.GlobalOver?
  }

  function Bit(b: bool): nat { if b then 1 else 0 }

  function Count(cs: seq<Conn>, k: Tally): nat {
    if cs == [] then 0 else Count(cs[..|cs| - 1], k) + Bit(Counted(cs[|cs| - 1], k))
  }

  // ---- the steps ----

  function Bump(m: map<string, int>, u: string, d: int): map<string, int> {
    if u in m then m[u := Wrap32(m[u] + d)] else m
  }

  /** Whether a request waits for connMu or has nothing left to do. */
  predicate Blocked(c: Conn, sh: Shared) {
    || c.Finished()
    || (sh.connMu.Some? && (c.phase.GlobalUndone? || c.phase.ExitStart? || (c.phase.Arrived? && c.user.Some?)))
  }

  /** The next atomic action of request i: where it moves the request... */
  function Move(c: Conn, sh: Shared): Phase {
    var u := c.Uid();
    match c.phase
    case Arrived => if c.user.None? then GlobalAdded else Looked
    case Looked => UserAdded
    case UserAdded =>
      if c.Cap() > 0 && u in sh.userConns && sh.userConns[u] > Wrap32(c.Cap()) then UserOver else UserPassed
    case UserOver => UserUndone
    case UserUndone => Rejected(429)
    case UserPassed => NeedGlobal
    case NeedGlobal => GlobalAdded
    case GlobalAdded => if c.maxGlobal > 0 && sh.globalConns > c.maxGlobal then GlobalOver else Admitted
    case GlobalOver => if c.user.None? then Rejected(503) else GlobalUndone
    case GlobalUndone => UndoLocked
    case UndoLocked => UndoDone
    case UndoDone => Rejected(503)
    case Admitted => if u == "" then Done else ExitStart
    case ExitStart => ExitLocked(u in sh.userConns)
    case ExitLocked(found) => ExitReady(found)
    case ExitReady(found) => Done
    case Done => Done
    case Rejected(status) => Rejected(status)
  }

  /** ... and what it does to the shared state. */
  function Effect(c: Conn, i: nat, sh: Shared): Shared {
    var u := c.Uid();
    match c.phase
    case Arrived =>
      if c.user.None? then sh.(globalConns := Wrap32(sh.globalConns + 1))
      else sh.(connMu := Some(i), userConns := if u in sh.userConns then sh.userConns else sh.userConns[u := 0])
    case Looked => sh.(userConns := Bump(sh.userConns, u, 1))
    case UserOver => sh.(userConns := Bump(sh.userConns, u, -1))
    case UserUndone => sh.(connMu := None)
    case UserPassed => sh.(connMu := None)
    case NeedGlobal => sh.(globalConns := Wrap32(sh.globalConns + 1))
    case GlobalOver => sh.(globalConns := Wrap32(sh.globalConns - 1))
    case GlobalUndone => sh.(connMu := Some(i))
    case UndoLocked => sh.(userConns := Bump(sh.userConns, u, -1))
    case UndoDone => sh.(connMu := None)
    case Admitted => sh.(globalConns := Wrap32(sh.globalConns - 1))
    case ExitStart => sh.(connMu := Some(i))
    case ExitLocked(found) => sh.(connMu := None)
    case ExitReady(found) => if found then sh.(userConns := Bump(sh.userConns, u, -1)) else sh
    case _ => sh
  }

  /** A blocked request leaves the state alone. */
  function Step(s: State, i: nat): State
    requires i < |s.conns|
  {
    var c := s.conns[i];
    if Blocked(c, s.shared) then s
    else State(s.conns[i := c.(phase := Move(c, s.shared))], Effect(c, i, s.shared))
  }

  function Run(s: State, schedule: seq<nat>): (r: State)
    requires forall k :: 0 <= k < |schedule| ==> schedule[k] < |s.conns|
    ensures |r.conns| == |s.conns|
  {
    if schedule == [] then s
    else
      var before := Run(s, schedule[..|schedule| - 1]);
      Step(before, schedule[|schedule| - 1])
  }

  predicate Initial(s: State) {
    && s.shared == Shared(0, map[], None)
    && forall i :: 0 <= i < |s.conns| ==> s.conns[i].phase.Arrived?
  }

  predicate Reachable(s0: State, schedule: seq<nat>) {
    && Initial(s0)
    && forall k :: 0 <= k < |schedule| ==> schedule[k] < |s0.conns|
  }

  // ---- counting ----

  lemma {:induction false} CountUpdate(cs: seq<Conn>, i: nat, c: Conn, k: Tally)
    requires i < |cs|
    ensures Count(cs[i := c], k) == Count(cs, k) - Bit(Counted(cs[i], k)) + Bit(Counted(c, k))
  {
    var n := |cs| - 1;
    if i == n {
      assert cs[i := c][..n] == cs[..n];
    } else {
      assert cs[i := c][..n] == cs[..n][i := c];
      CountUpdate(cs[..n], i, c, k);
    }
  }

  lemma {:induction false} CountZero(cs: seq<Conn>, k: Tally)
    requires forall i :: 0 <= i < |cs| ==> !Counted(cs[i], k)
    ensures Count(cs, k) == 0
  {
    if cs != [] { CountZero(cs[..|cs| - 1], k); }
  }

  lemma {:induction false} CountMono(cs: seq<Conn>, k: Tally, m: Tally)
    requires forall i :: 0 <= i < |cs| && Counted(cs[i], k) ==> Counted(cs[i], m)
    ensures Count(cs, k) <= Count(cs, m) <= |cs|
  {
    if cs != [] {
      CountMono(cs[..|cs| - 1], k, m);
    }
  }

  /** A request counted by m but not by k leaves a gap between the two counts. */
  lemma CountGap(cs: seq<Conn>, i: nat, k: Tally, m: Tally)
    requires i < |cs| && !Counted(cs[i], k) && Counted(cs[i], m)
    requires forall j :: 0 <= j < |cs| && Counted(cs[j], k) ==> Counted(cs[j], m)
    ensures Count(cs, k) + 1 <= Count(cs, m) <= |cs|
  {
    var idle := cs[i].(phase := Arrived);
    CountUpdate(cs, i, idle, k);
    CountUpdate(cs, i, idle, m);
    CountMono(cs[i := idle], k, m);
    CountMono(cs, m, m);
  }

  // ---- the counting invariant ----

  ghost predicate UserAgrees(sh: Shared, cs: seq<Conn>, u: string) {
    if u in sh.userConns then sh.userConns[u] == Wrap32(Count(cs, UserSlot(u)))
    else Count(cs, UserSlot(u)) == 0
  }

  ghost predicate CountersAgree(s: State) {
    && s.shared.globalConns == Wrap32(Count(s.conns, GlobalSlot))
    && forall u :: UserAgrees(s.shared, s.conns, u)
  }

  /** What the state says about one request. */
  predicate Placed(c: Conn, i: nat, sh: Shared) {
    && c.WellPhased()
    && (c.InCritical() <==> sh.connMu == Some(i))
    && (c.user.Some? && !c.phase.Arrived? ==> c.user.value in sh.userConns)
    && (c.phase.ExitLocked? || c.phase.ExitReady? ==> c.phase.found)
    && (c.phase.ExitStart? || c.phase.ExitLocked? || c.phase.ExitReady? ==> c.Uid() != "")
  }

  predicate AllPlaced(s: State) {
    && (s.shared.connMu.Some? ==> s.shared.connMu.value < |s.conns|)
    && forall i :: 0 <= i < |s.conns| ==> Placed(s.conns[i], i, s.shared)
  }

  ghost predicate Inv(s: State) {
    CountersAgree(s) && AllPlaced(s)
  }

  lemma WrapAdds(n: int, d: int)
    ensures Wrap32(Wrap32(n) + d) == Wrap32(n + d)
  {
  }

  lemma InitialInv(s: State)
    requires Initial(s)
    ensures Inv(s)
  {
    CountZero(s.conns, GlobalSlot);
    forall u ensures UserAgrees(s.shared, s.conns, u) { CountZero(s.conns, UserSlot(u)); }
  }

  lemma MovePlaces(c: Conn, i: nat, sh: Shared)
    requires Placed(c, i, sh) && !Blocked(c, sh)
    ensures Placed(c.(phase := Move(c, sh)), i, Effect(c, i, sh))
    ensures sh.userConns.Keys <= Effect(c, i, sh).userConns.Keys
    ensures Effect(c, i, sh).connMu == sh.connMu || {sh.connMu, Effect(c, i, sh).connMu} == {None, Some(i)}
  {
  }

  lemma MoveSlots(c: Conn, i: nat, sh: Shared, u: string)
    requires Placed(c, i, sh) && !Blocked(c, sh)
    ensures var before, after := Counted(c, UserSlot(u)), Counted(c.(phase := Move(c, sh)), UserSlot(u));
            var m, m' := sh.userConns, Effect(c, i, sh).userConns;
            if before == after then (if u in m then u in m' && m'[u] == m[u] else u in m' ==> m'[u] == 0)
            else u in m && u in m' && m'[u] == Wrap32(m[u] + Bit(after) - Bit(before))
  {
  }

  lemma MoveGlobal(c: Conn, i: nat, sh: Shared)
    requires Placed(c, i, sh) && !Blocked(c, sh)
    ensures var before, after := Counted(c, GlobalSlot), Counted(c.(phase := Move(c, sh)), GlobalSlot);
            Effect(c, i, sh).globalConns
              == if before == after then sh.globalConns else Wrap32(sh.globalConns + Bit(after) - Bit(before))
  {
  }

  lemma StepUserAgrees(s: State, i: nat, u: string)
    requires i < |s.conns| && Inv(s)
    ensures UserAgrees(Step(s, i).shared, Step(s, i).conns, u)
  {
    var c, sh := s.conns[i], s.shared;
    assert UserAgrees(sh, s.conns, u) && Placed(c, i, sh);
    if !Blocked(c, sh) {
      var c' := c.(phase := Move(c, sh));
      MoveSlots(c, i, sh, u);
      CountUpdate(s.conns, i, c', UserSlot(u));
      WrapAdds(Count(s.conns, UserSlot(u)), Bit(Counted(c', UserSlot(u))) - Bit(Counted(c, UserSlot(u))));
    }
  }

  lemma StepGlobalAgrees(s: State, i: nat)
    requires i < |s.conns| && Inv(s)
    ensures Step(s, i).shared.globalConns == Wrap32(Count(Step(s, i).conns, GlobalSlot))
  {
    var c, sh := s.conns[i], s.shared;
    assert Placed(c, i, sh);
    if !Blocked(c, sh) {
      var c' := c.(phase := Move(c, sh));
      MoveGlobal(c, i, sh);
      CountUpdate(s.conns, i, c', GlobalSlot);
      WrapAdds(Count(s.conns, GlobalSlot), Bit(Counted(c', GlobalSlot)) - Bit(Counted(c, GlobalSlot)));
    }
  }

  lemma StepAllPlaced(s: State, i: nat)
    requires i < |s.conns| && AllPlaced(s)
    ensures AllPlaced(Step(s, i))
  {
    var c, sh := s.conns[i], s.shared;
    assert Placed(c, i, sh);
    if !Blocked(c, sh) {
      MovePlaces(c, i, sh);
      var r := Step(s, i);
      forall j | 0 <= j < |s.conns| ensures Placed(r.conns[j], j, r.shared) {
        assert Placed(s.conns[j], j, sh);
      }
    }
  }

  lemma StepInv(s: State, i: nat)
    requires i < |s.conns| && Inv(s)
    ensures Inv(Step(s, i))
  {
    StepGlobalAgrees(s, i);
    StepAllPlaced(s, i);
    forall u ensures UserAgrees(Step(s, i).shared, Step(s, i).conns, u) { StepUserAgrees(s, i, u); }
  }

  /** Under every interleaving both counters stand for exactly the slots held, connMu
      has one holder at a time, and no counter is ever missing when it is needed. */
  lemma {:induction false} CountersExact(s0: State, schedule: seq<nat>)
    requires Reachable(s0, schedule)
    ensures Inv(Run(s0, schedule))
  {
    if schedule == [] {
      InitialInv(s0);
    } else {
      CountersExact(s0, schedule[..|schedule| - 1]);
      StepInv(Run(s0, schedule[..|schedule| - 1]), schedule[|schedule| - 1]);
    }
  }

  /** Fewer than 2^31 requests: the 32-bit counters are the plain counts. */
  lemma NoWrap(s: State, k: Tally)
    requires |s.conns| < 0x8000_0000
    ensures Wrap32(Count(s.conns, k)) == Count(s.conns, k)
  {
    CountMono(s.conns, k, k);
  }

  /** No counter is ever negative, and each equals the number of slots held. */
  lemma CountersNeverNegative(s0: State, schedule: seq<nat>, uid: string)
    requires Reachable(s0, schedule) && |s0.conns| < 0x8000_0000
    ensures var s := Run(s0, schedule);
            && s.shared.globalConns == Count(s.conns, GlobalSlot) >= 0
            && (uid in s.shared.userConns ==> s.shared.userConns[uid] == Count(s.conns, UserSlot(uid)) >= 0)
  {
    var s := Run(s0, schedule);
    CountersExact(s0, schedule);
    assert UserAgrees(s.shared, s.conns, uid);
    NoWrap(s, GlobalSlot);
    NoWrap(s, UserSlot(uid));
  }

  lemma HolderUnfinished(s: State)
    requires AllPlaced(s)
    ensures s.shared.connMu.Some? ==> !s.conns[s.shared.connMu.value].Finished()
  {
    if s.shared.connMu.Some? {
      assert Placed(s.conns[s.shared.connMu.value], s.shared.connMu.value, s.shared);
    }
  }

  /** When every request has finished the global counter is zero, and a user's counter
      is zero exactly when no admitted request of that user had an empty ID. */
  lemma Quiescence(s0: State, schedule: seq<nat>, uid: string)
    requires Reachable(s0, schedule)
    requires forall i :: 0 <= i < |s0.conns| ==> Run(s0, schedule).conns[i].Finished()
    requires uid in Run(s0, schedule).shared.userConns && |s0.conns| < 0x8000_0000
    ensures var s := Run(s0, schedule);
            && s.shared.globalConns == 0 && s.shared.connMu == None
            && (s.shared.userConns[uid] == 0 <==>
                !exists i :: 0 <= i < |s.conns| && uid == "" && s.conns[i].user == Some(uid) && s.conns[i].phase.Done?)
  {
    var s := Run(s0, schedule);
    CountersNeverNegative(s0, schedule, uid);
    CountersExact(s0, schedule);
    CountZero(s.conns, GlobalSlot);
    HolderUnfinished(s);
    if i :| 0 <= i < |s.conns| && Counted(s.conns[i], UserSlot(uid)) {
      CountUpdate(s.conns, i, s.conns[i].(phase := Arrived), UserSlot(uid));
    } else {
      CountZero(s.conns, UserSlot(uid));
    }
  }

  // ---- the caps ----

  /** The per-user check bounds the requests of that user that are past it, whatever
      caps the others were judged under. */
  lemma UserCheckBounds(s: State, i: nat, uid: string)
    requires i < |s.conns| < 0x8000_0000 && Inv(s)
    requires s.conns[i].user == Some(uid) && s.conns[i].Cap() > 0
    requires s.conns[i].phase.UserAdded? && Step(s, i).conns[i].phase.UserPassed?
    ensures Count(Step(s, i).conns, PastUserCheck(uid)) <= s.conns[i].Cap()
  {
    assert UserAgrees(s.shared, s.conns, uid) && Placed(s.conns[i], i, s.shared);
    NoWrap(s, UserSlot(uid));
    CountGap(s.conns, i, PastUserCheck(uid), UserSlot(uid));
    CountUpdate(s.conns, i, Step(s, i).conns[i], PastUserCheck(uid));
  }

  /** An admission under a global cap leaves at most that many connections in use. */
  lemma GlobalCheckBounds(s: State, i: nat)
    requires i < |s.conns| < 0x8000_0000 && Inv(s)
    requires s.conns[i].maxGlobal > 0
    requires s.conns[i].phase.GlobalAdded? && Step(s, i).conns[i].phase.Admitted?
    ensures Count(Step(s, i).conns, InUse) <= s.conns[i].maxGlobal
  {
    NoWrap(s, GlobalSlot);
    CountGap(s.conns, i, InUse, GlobalSlot);
    CountUpdate(s.conns, i, Step(s, i).conns[i], InUse);
  }

  // ---- when a refusal is genuine ----

  /** The global counter is shared out between connections in use and requests that have
      taken a slot but are still deciding. */
  lemma {:induction false} GlobalSlotsShared(cs: seq<Conn>)
    ensures Count(cs, GlobalSlot) == Count(cs, InUse) + Count(cs, Deciding)
  {
    if cs != [] { GlobalSlotsShared(cs[..|cs| - 1]); }
  }

  lemma GlobalRefusalAt(s: State, i: nat)
    requires Inv(s) && i < |s.conns| < 0x8000_0000 && s.conns[i].phase.GlobalAdded?
    ensures Count(s.conns, Deciding) >= 1
    ensures Step(s, i).conns[i].phase == if s.conns[i].maxGlobal > 0
              && Count(s.conns, InUse) + Count(s.conns, Deciding) > s.conns[i].maxGlobal then GlobalOver else Admitted
  {
    NoWrap(s, GlobalSlot);
    GlobalSlotsShared(s.conns);
    CountUpdate(s.conns, i, s.conns[i].(phase := Arrived), Deciding);
  }

  /** A request is refused with 503 exactly when the connections in use and the requests that
      are deciding, itself among them, are more than its cap. */
  lemma GlobalRefusalExact(s0: State, schedule: seq<nat>, i: nat)
    requires Reachable(s0, schedule) && i < |s0.conns| < 0x8000_0000
    requires Run(s0, schedule).conns[i].phase.GlobalAdded?
    ensures var s := Run(s0, schedule);
            && Count(s.conns, Deciding) >= 1
            && (Step(s, i).conns[i].phase == if s.conns[i].maxGlobal > 0
                && Count(s.conns, InUse) + Count(s.conns, Deciding) > s.conns[i].maxGlobal then GlobalOver else Admitted)
  {
    hide Run, Inv, Step, Count;
    CountersExact(s0, schedule);
    GlobalRefusalAt(Run(s0, schedule), i);
  }

  lemma {:induction false} OnlyOne(cs: seq<Conn>, i: nat, k: Tally)
    requires i < |cs| && Counted(cs[i], k) && forall j :: 0 <= j < |cs| && j != i ==> !Counted(cs[j], k)
    ensures Count(cs, k) == 1
  {
    var idle := cs[i].(phase := Arrived);
    CountUpdate(cs, i, idle, k);
    CountZero(cs[i := idle], k);
  }

  /** While nobody else is deciding, a request is refused exactly when the cap is full of
      connections in use. */
  lemma AloneRefusalGenuine(s0: State, schedule: seq<nat>, i: nat)
    requires Reachable(s0, schedule) && i < |s0.conns| < 0x8000_0000
    requires Run(s0, schedule).conns[i].phase.GlobalAdded? && Run(s0, schedule).conns[i].maxGlobal > 0
    requires forall j :: 0 <= j < |s0.conns| && j != i ==> !Counted(Run(s0, schedule).conns[j], Deciding)
    ensures var s := Run(s0, schedule);
            Step(s, i).conns[i].phase.GlobalOver? <==> Count(s.conns, InUse) >= s.conns[i].maxGlobal
  {
    OnlyOne(Run(s0, schedule).conns, i, Deciding);
    GlobalRefusalExact(s0, schedule, i);
  }

  /** Under the lock every other slot of the user has passed its check. */
  lemma OthersPassed(s: State, i: nat, uid: string)
    requires i < |s.conns| && Inv(s) && s.conns[i].user == Some(uid) && s.conns[i].phase.UserAdded?
    ensures Count(s.conns, UserSlot(uid)) == Count(s.conns, PastUserCheck(uid)) + 1
  {
    var idle := s.conns[i].(phase := Arrived);
    var cs := s.conns[i := idle];
    CountUpdate(s.conns, i, idle, UserSlot(uid));
    CountUpdate(s.conns, i, idle, PastUserCheck(uid));
    assert Placed(s.conns[i], i, s.shared);
    forall j | 0 <= j < |cs| && Counted(cs[j], UserSlot(uid)) ensures Counted(cs[j], PastUserCheck(uid)) {
      assert Placed(s.conns[j], j, s.shared);
    }
    CountMono(cs, UserSlot(uid), PastUserCheck(uid));
    CountMono(cs, PastUserCheck(uid), UserSlot(uid));
  }

  /** A request is refused with 429 exactly when as many requests of the user as its cap,
      in 32 bits, have passed their check and still hold the slot. */
  lemma UserRefusalExact(s0: State, schedule: seq<nat>, i: nat, uid: string)
    requires Reachable(s0, schedule) && i < |s0.conns| < 0x8000_0000
    requires Run(s0, schedule).conns[i].user == Some(uid) && Run(s0, schedule).conns[i].phase.UserAdded?
    ensures var s := Run(s0, schedule);
            var c := s.conns[i];
            var cap := if c.maxConns == 0 then c.defaultMaxConns else c.maxConns;
            Step(s, i).conns[i].phase == if cap > 0 && Count(s.conns, PastUserCheck(uid)) >= Wrap32(cap)
                                         then UserOver else UserPassed
  {
    var s := Run(s0, schedule);
    CountersExact(s0, schedule);
    assert UserAgrees(s.shared, s.conns, uid) && Placed(s.conns[i], i, s.shared);
    NoWrap(s, UserSlot(uid));
    OthersPassed(s, i, uid);
  }

  lemma StatusAfter(s: State, i: nat, j: nat)
    requires i < |s.conns| && j < |s.conns|
    requires s.conns[i].phase.Rejected? ==> s.conns[i].phase.status == 429 || s.conns[i].phase.status == 503
    ensures var p := Step(s, j).conns[i].phase; p.Rejected? ==> p.status == 429 || p.status == 503
    ensures var c := s.conns[i];
            !Blocked(c, s.shared) ==>
              && (c.phase.UserUndone? ==> Step(s, i).conns[i].phase == Rejected(429))
              && (c.phase.UndoDone? || (c.phase.GlobalOver? && c.user == None) ==> Step(s, i).conns[i].phase == Rejected(503))
  {
  }

  /** Which refusal a request gets: 429 once its user's counter is rolled back, 503 once the
      global one is, and no other. */
  lemma {:induction false} RefusalStatus(s0: State, schedule: seq<nat>, i: nat)
    requires Reachable(s0, schedule) && i < |s0.conns|
    ensures var s := Run(s0, schedule);
            var c := s.conns[i];
            && (c.phase.Rejected? ==> c.phase.status == 429 || c.phase.status == 503)
            && (!Blocked(c, s.shared) ==>
                  && (c.phase.UserUndone? ==> Step(s, i).conns[i].phase == Rejected(429))
                  && (c.phase.UndoDone? || (c.phase.GlobalOver? && c.user == None) ==> Step(s, i).conns[i].phase == Rejected(503)))
  {
    hide Blocked, Step;
    if schedule != [] {
      RefusalStatus(s0, schedule[..|schedule| - 1], i);
      StatusAfter(Run(s0, schedule[..|schedule| - 1]), i, schedule[|schedule| - 1]);
    }
    StatusAfter(Run(s0, schedule), i, i);
  }

  /** So it is genuine while the user has no request between its check and its end other
      than connections in use. */
  lemma UserRefusalGenuine(s0: State, schedule: seq<nat>, i: nat, uid: string)
    requires Reachable(s0, schedule) && i < |s0.conns| < 0x8000_0000
    requires Run(s0, schedule).conns[i].user == Some(uid) && Run(s0, schedule).conns[i].phase.UserAdded?
    requires 0 < Run(s0, schedule).conns[i].Cap() < 0x8000_0000
    requires forall j :: 0 <= j < |s0.conns| && Counted(Run(s0, schedule).conns[j], PastUserCheck(uid)) ==>
               Run(s0, schedule).conns[j].phase.Admitted?
    ensures var s := Run(s0, schedule);
            Step(s, i).conns[i].phase.UserOver? <==> Count(s.conns, InUseBy(uid)) >= s.conns[i].Cap()
  {
    var s := Run(s0, schedule);
    UserRefusalExact(s0, schedule, i, uid);
    CountMono(s.conns, PastUserCheck(uid), InUseBy(uid));
    CountMono(s.conns, InUseBy(uid), PastUserCheck(uid));
  }

  // ---- caps over whole runs ----

  lemma StepKeepsCaller(s: State, i: nat, j: nat)
    requires i < |s.conns| && j < |s.conns|
    ensures s.conns[j].(phase := Arrived) == Step(s, i).conns[j].(phase := Arrived)
  {
  }

  ghost predicate CapsAtMost(s: State, uid: string, c: int) {
    forall i :: 0 <= i < |s.conns| && s.conns[i].user == Some(uid) ==> 0 < s.conns[i].Cap() <= c
  }

  ghost predicate GlobalCapsAtMost(s: State, m: int) {
    forall i :: 0 <= i < |s.conns| ==> 0 < s.conns[i].maxGlobal <= m
  }

  lemma {:induction false} CallersFixed(s0: State, schedule: seq<nat>, j: nat)
    requires Reachable(s0, schedule) && j < |s0.conns|
    ensures s0.conns[j] == Run(s0, schedule).conns[j].(phase := Arrived)
  {
    if schedule != [] {
      var before := schedule[..|schedule| - 1];
      CallersFixed(s0, before, j);
      StepKeepsCaller(Run(s0, before), schedule[|schedule| - 1], j);
    }
  }

  lemma UserStepHolds(b: State, i: nat, uid: string, c: nat)
    requires i < |b.conns| < 0x8000_0000 && Inv(b)
    requires b.conns[i].user == Some(uid) ==> 0 < b.conns[i].Cap() <= c
    requires Count(b.conns, PastUserCheck(uid)) <= c
    ensures Count(Step(b, i).conns, PastUserCheck(uid)) <= c
  {
    var q := Step(b, i).conns[i];
    CountUpdate(b.conns, i, q, PastUserCheck(uid));
    assert Placed(b.conns[i], i, b.shared);
    if !Counted(b.conns[i], PastUserCheck(uid)) && Counted(q, PastUserCheck(uid)) {
      UserCheckBounds(b, i, uid);
    }
  }

  /** Caps of a user never above c: never more than c of its connections in use. */
  lemma {:induction false} UserCapHolds(s0: State, schedule: seq<nat>, uid: string, c: nat)
    requires Reachable(s0, schedule) && |s0.conns| < 0x8000_0000 && CapsAtMost(s0, uid, c)
    ensures Count(Run(s0, schedule).conns, PastUserCheck(uid)) <= c
    ensures Count(Run(s0, schedule).conns, InUseBy(uid)) <= c
  {
    var s := Run(s0, schedule);
    if schedule == [] {
      CountZero(s.conns, PastUserCheck(uid));
    } else {
      var before, i := schedule[..|schedule| - 1], schedule[|schedule| - 1];
      var b := Run(s0, before);
      UserCapHolds(s0, before, uid, c);
      CountersExact(s0, before);
      CallersFixed(s0, before, i);
      UserStepHolds(b, i, uid, c);
    }
    CountMono(s.conns, InUseBy(uid), PastUserCheck(uid));
  }

  /** A user whose requests carry a cap of their own never has more connections in use. */
  lemma OwnCapHolds(s0: State, schedule: seq<nat>, uid: string, c: nat)
    requires Reachable(s0, schedule) && |s0.conns| < 0x8000_0000 && c > 0
    requires forall i :: 0 <= i < |s0.conns| && s0.conns[i].user == Some(uid) ==> s0.conns[i].maxConns == c
    ensures Count(Run(s0, schedule).conns, InUseBy(uid)) <= c
  {
    UserCapHolds(s0, schedule, uid, c);
  }

  /** One whose requests carry none is held to the default. */
  lemma DefaultCapHolds(s0: State, schedule: seq<nat>, uid: string, c: nat)
    requires Reachable(s0, schedule) && |s0.conns| < 0x8000_0000 && c > 0
    requires forall i :: 0 <= i < |s0.conns| && s0.conns[i].user == Some(uid) ==>
               s0.conns[i].maxConns == 0 && s0.conns[i].defaultMaxConns == c
    ensures Count(Run(s0, schedule).conns, InUseBy(uid)) <= c
  {
    UserCapHolds(s0, schedule, uid, c);
  }

  lemma GlobalStepHolds(b: State, i: nat, m: nat)
    requires i < |b.conns| < 0x8000_0000 && Inv(b) && 0 < b.conns[i].maxGlobal <= m && Count(b.conns, InUse) <= m
    ensures Count(Step(b, i).conns, InUse) <= m
  {
    var q := Step(b, i).conns[i];
    CountUpdate(b.conns, i, q, InUse);
    if !b.conns[i].phase.Admitted? && q.phase.Admitted? { GlobalCheckBounds(b, i); }
  }

  /** Global caps never above m: never more than m connections in use. */
  lemma {:induction false} GlobalCapHolds(s0: State, schedule: seq<nat>, m: nat)
    requires Reachable(s0, schedule) && |s0.conns| < 0x8000_0000 && GlobalCapsAtMost(s0, m)
    ensures Count(Run(s0, schedule).conns, InUse) <= m
  {
    var s := Run(s0, schedule);
    if schedule == [] {
      CountZero(s.conns, InUse);
    } else {
      var before, i := schedule[..|schedule| - 1], schedule[|schedule| - 1];
      var b := Run(s0, before);
      GlobalCapHolds(s0, before, m);
      CountersExact(s0, before);
      CallersFixed(s0, before, i);
      GlobalStepHolds(b, i, m);
    }
  }

  /** The protocol never jams: while some request has not finished, some request can move. */
  lemma NoDeadlock(s0: State, schedule: seq<nat>, j: nat)
    requires Reachable(s0, schedule) && j < |s0.conns| && !Run(s0, schedule).conns[j].Finished()
    ensures exists i: nat :: i < |s0.conns| && !Blocked(Run(s0, schedule).conns[i], Run(s0, schedule).shared)
  {
    var s := Run(s0, schedule);
    CountersExact(s0, schedule);
    if Blocked(s.conns[j], s.shared) {
      var i := s.shared.connMu.value;
      assert Placed(s.conns[i], i, s.shared);
      assert !Blocked(s.conns[i], s.shared);
    }
  }

  lemma RunExtends(s0: State, schedule: seq<nat>, i: nat)
    requires i < |s0.conns| && forall k :: 0 <= k < |schedule| ==> schedule[k] < |s0.conns|
    ensures Run(s0, schedule + [i]) == Step(Run(s0, schedule), i)
  {
    assert (schedule + [i])[..|schedule|] == schedule;
  }

  /** Two anonymous requests under a global cap of one, at phases p and q. */
  function Duel(p: Phase, q: Phase, globalConns: int): State {
    State([Conn(None, 0, 25, 1, p), Conn(None, 0, 25, 1, q)], Shared(globalConns, map[], None))
  }

  ghost predicate DuelReaches(schedule: seq<nat>, p: Phase, q: Phase, g: int) {
    Reachable(Duel(Arrived, Arrived, 0), schedule) && Run(Duel(Arrived, Arrived, 0), schedule) == Duel(p, q, g)
  }

  lemma DuelFirst(schedule: seq<nat>, p: Phase, q: Phase, g: int, p': Phase, g': int) returns (longer: seq<nat>)
    requires DuelReaches(schedule, p, q, g)
    requires var c, sh := Conn(None, 0, 25, 1, p), Shared(g, map[], None);
             !Blocked(c, sh) && Move(c, sh) == p' && Effect(c, 0, sh) == Shared(g', map[], None)
    ensures DuelReaches(longer, p', q, g')
  {
    longer := schedule + [0];
    RunExtends(Duel(Arrived, Arrived, 0), schedule, 0);
    assert Duel(p, q, g).conns[0 := Conn(None, 0, 25, 1, p')] == Duel(p', q, g').conns;
  }

  lemma DuelSecond(schedule: seq<nat>, p: Phase, q: Phase, g: int, q': Phase, g': int) returns (longer: seq<nat>)
    requires DuelReaches(schedule, p, q, g)
    requires var c, sh := Conn(None, 0, 25, 1, q), Shared(g, map[], None);
             !Blocked(c, sh) && Move(c, sh) == q' && Effect(c, 1, sh) == Shared(g', map[], None)
    ensures DuelReaches(longer, p, q', g')
  {
    longer := schedule + [1];
    RunExtends(Duel(Arrived, Arrived, 0), schedule, 1);
    assert Duel(p, q, g).conns[1 := Conn(None, 0, 25, 1, q')] == Duel(p, q', g').conns;
  }

  lemma BothAdd() returns (schedule: seq<nat>)
    ensures DuelReaches(schedule, GlobalAdded, GlobalAdded, 2)
  {
    schedule := DuelFirst([], Arrived, Arrived, 0, GlobalAdded, 1);
    schedule := DuelSecond(schedule, GlobalAdded, Arrived, 1, GlobalAdded, 2);
  }

  lemma BothRead(before: seq<nat>) returns (schedule: seq<nat>)
    requires DuelReaches(before, GlobalAdded, GlobalAdded, 2)
    ensures DuelReaches(schedule, GlobalOver, GlobalOver, 2)
  {
    schedule := DuelFirst(before, GlobalAdded, GlobalAdded, 2, GlobalOver, 2);
    schedule := DuelSecond(schedule, GlobalOver, GlobalAdded, 2, GlobalOver, 2);
  }

  lemma BothUndo(before: seq<nat>) returns (schedule: seq<nat>)
    requires DuelReaches(before, GlobalOver, GlobalOver, 2)
    ensures DuelReaches(schedule, Rejected(503), Rejected(503), 0)
  {
    schedule := DuelFirst(before, GlobalOver, GlobalOver, 2, Rejected(503), 1);
    schedule := DuelSecond(schedule, Rejected(503), GlobalOver, 1, Rejected(503), 0);
  }

  /** The two counters are not validated together: two requests competing for one free
      slot can both be refused, although neither was ever admitted. */
  lemma SpuriousRejection() returns (overlap: seq<nat>, schedule: seq<nat>)
    ensures DuelReaches(overlap, GlobalAdded, GlobalAdded, 2)
    ensures DuelReaches(schedule, Rejected(503), Rejected(503), 0)
  {
    overlap := BothAdd();
    schedule := BothRead(overlap);
    schedule := BothUndo(schedule);
  }

  /** One request of a user with an empty ID, at phase p. */
  function Solo(p: Phase, sh: Shared): State { State([Conn(Some(""), 0, 25, 0, p)], sh) }

  ghost predicate SoloReaches(schedule: seq<nat>, p: Phase, sh: Shared) {
    var s0 := Solo(Arrived, Shared(0, map[], None));
    Reachable(s0, schedule) && Run(s0, schedule) == Solo(p, sh)
  }

  lemma SoloStep(schedule: seq<nat>, p: Phase, sh: Shared) returns (longer: seq<nat>)
    requires SoloReaches(schedule, p, sh) && !Blocked(Conn(Some(""), 0, 25, 0, p), sh)
    ensures var c := Conn(Some(""), 0, 25, 0, p); SoloReaches(longer, Move(c, sh), Effect(c, 0, sh))
  {
    longer := schedule + [0];
    RunExtends(Solo(Arrived, Shared(0, map[], None)), schedule, 0);
    var c := Conn(Some(""), 0, 25, 0, p);
    assert [c][0 := c.(phase := Move(c, sh))] == [c.(phase := Move(c, sh))];
  }

  lemma SoloEnters() returns (schedule: seq<nat>)
    ensures SoloReaches(schedule, UserPassed, Shared(0, map["" := 1], Some(0)))
  {
    var none: map<string, int> := map[];
    schedule := SoloStep([], Arrived, Shared(0, none, None));
    assert none["" := 0] == map["" := 0];
    schedule := SoloStep(schedule, Looked, Shared(0, map["" := 0], Some(0)));
    assert Bump(map["" := 0], "", 1) == map["" := 1];
    schedule := SoloStep(schedule, UserAdded, Shared(0, map["" := 1], Some(0)));
  }

  lemma SoloAdmitted(before: seq<nat>) returns (schedule: seq<nat>)
    requires SoloReaches(before, UserPassed, Shared(0, map["" := 1], Some(0)))
    ensures SoloReaches(schedule, GlobalAdded, Shared(1, map["" := 1], None))
  {
    schedule := SoloStep(before, UserPassed, Shared(0, map["" := 1], Some(0)));
    schedule := SoloStep(schedule, NeedGlobal, Shared(0, map["" := 1], None));
  }

  lemma SoloLeaves(before: seq<nat>) returns (schedule: seq<nat>)
    requires SoloReaches(before, GlobalAdded, Shared(1, map["" := 1], None))
    ensures SoloReaches(schedule, Done, Shared(0, map["" := 1], None))
  {
    schedule := SoloStep(before, GlobalAdded, Shared(1, map["" := 1], None));
    schedule := SoloStep(schedule, Admitted, Shared(1, map["" := 1], None));
  }

  /** The slot of a user with an empty ID is never given back: everybody has finished, and
      its counter stands at one. */
  lemma EmptyIdKeepsSlot() returns (schedule: seq<nat>)
    ensures SoloReaches(schedule, Done, Shared(0, map["" := 1], None))
  {
    hide SoloReaches;
    schedule := SoloEnters();
    schedule := SoloAdmitted(schedule);
    schedule := SoloLeaves(schedule);
  }

  // ---- the uncontended call ----

  predicate InRange(sh: Shared) {
    && 0 <= sh.globalConns < 0x7FFF_FFFF
    && forall u :: u in sh.userConns ==> 0 <= sh.userConns[u] < 0x7FFF_FFFF
  }

  function Slots(sh: Shared, u: string): int { if u in sh.userConns then sh.userConns[u] else 0 }

  /** Which cap, if any, is already reached when the call starts. */
  function Occupied(c: Conn, sh: Shared): (status: int) {
    if c.user.Some? && c.Cap() > 0 && Slots(sh, c.Uid()) >= Wrap32(c.Cap()) then 429
    else if c.maxGlobal > 0 && sh.globalConns >= c.maxGlobal then 503 else 0
  }

  /** The source's own form: the counters as fields, the calls as methods, with no other
      request running in between. */
  class ConnGate {
    var globalConns: int
    var userConns: map<string, int>

    constructor ()
      ensures View() == Shared(0, map[], None)
    {
      globalConns, userConns := 0, map[];
    }

    ghost function View(): Shared
      reads this
    {
      Shared(globalConns, userConns, None)
    }

    /** Alone, a call is refused exactly when a cap is reached; a refusal gives back
        everything it took and an admission takes exactly one slot of each kind. */
    method TryEnterConn(user: Option<string>, maxConns: int, defaultMaxConns: int, maxGlobal: int) returns (status: int)
      requires InRange(View())
      modifies this
      ensures status == Occupied(Conn(user, maxConns, defaultMaxConns, maxGlobal, Arrived), old(View()))
      ensures var cap := if maxConns == 0 then defaultMaxConns else maxConns;
              var full := user.Some? && cap > 0 && old(Slots(View(), user.value)) >= Wrap32(cap);
              && (status == 429 <==> full)
              && (status == 503 <==> !full && maxGlobal > 0 && old(globalConns) >= maxGlobal)
              && (status == 0 <==> !full && (maxGlobal <= 0 || old(globalConns) < maxGlobal))
      ensures globalConns == old(globalConns) + Bit(status == 0)
      ensures forall u :: Slots(View(), u) == old(Slots(View(), u)) + Bit(status == 0 && user == Some(u))
    {
      if user.Some? {
        var uid := user.value;
        var limit := if maxConns == 0 then defaultMaxConns else maxConns;
        if uid !in userConns {
          userConns := userConns[uid := 0];
        }
        userConns := userConns[uid := Wrap32(userConns[uid] + 1)];
        if limit > 0 && userConns[uid] > Wrap32(limit) {
          userConns := userConns[uid := Wrap32(userConns[uid] - 1)];
          return 429;
        }
      }
      globalConns := Wrap32(globalConns + 1);
      if maxGlobal > 0 && globalConns > maxGlobal {
        globalConns := Wrap32(globalConns - 1);
        if user.Some? && user.value in userConns {
          userConns := userConns[user.value := Wrap32(userConns[user.value] - 1)];
        }
        return 503;
      }
      return 0;
    }

    /** Undoes an admission, except that a user with an empty ID keeps its slot. */
    method ExitConn(uid: string)
      requires InRange(View()) && globalConns > 0 && (uid in userConns ==> userConns[uid] > 0)
      modifies this
      ensures globalConns == old(globalConns) - 1 && userConns.Keys == old(userConns).Keys
      ensures forall u :: Slots(View(), u) == old(Slots(View(), u)) - Bit(u == uid && u != "" && u in old(userConns))
    {
      globalConns := Wrap32(globalConns - 1);
      if uid == "" {
        return;
      }
      if uid in userConns {
        userConns := userConns[uid := Wrap32(userConns[uid] - 1)];
      }
    }
  }
}
