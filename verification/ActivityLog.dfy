/** The activity log: a bounded ring in memory, an append file that is halved when it would
    outgrow its limit, and the reload at start. JSON and time parsing are parameters. */
module ActivityLog {
  import opened Wrappers
  import opened Text
  import opened Sequences
  import opened LogEntries
  import opened FileLines
  import opened Reload

  // ---- encoding ----

  /** unix parses a time text. */
  datatype Codec = Codec(enc: LogEntry -> string, dec: string -> Option<LogEntry>, unix: string -> Option<int>)
  {
    /** What JSON gives: one non-empty line per entry, read back but for the unserialised t;
        and the end of a line is not an object. */
    ghost predicate Faithful() {
      && (forall e :: NL !in enc(e) && enc(e) != "" && dec(enc(e)) == Some(e.(t := 0)))
      && (forall e, x :: Tail(x, enc(e)) && |x| < |enc(e)| ==> dec(x).None?)
    }

    function Timed(e: LogEntry): LogEntry { if unix(e.time).Some? then e.(t := unix(e.time).value) else e }

    function Stamp(e: LogEntry, now: string): LogEntry { Timed(if e.time == "" then e.(time := now) else e) }

    /** An entry read back from its line. */
    function Restore(e: LogEntry): LogEntry { Timed(e.(t := 0)) }

    function Load(line: string): Option<LogEntry> {
      if dec(line).Some? then Some(Timed(dec(line).value)) else None
    }

    /** The restored entry, when its line is short enough for a reload. */
    function Reloaded(e: LogEntry): Option<LogEntry> { if Reasonable(enc(e)) then Some(Restore(e)) else None }
  }

  function Encoded(k: Codec, es: seq<LogEntry>): seq<string> {
    seq(|es|, i requires 0 <= i < |es| => k.enc(es[i]))
  }

  lemma EncodedConcat(k: Codec, a: seq<LogEntry>, b: seq<LogEntry>)
    ensures Encoded(k, a + b) == Encoded(k, a) + Encoded(k, b)
  {
  }

  // ---- what an operation does ----

  datatype Settings = Settings(ringSize: int, toFile: bool, fileMaxMB: int)
  {
    function Ring(): nat { if ringSize <= 0 then 20000 else ringSize }

    function Limit(): int { fileMaxMB * 0x10_0000 }
  }

  /** The ring, and the bytes of the file followed by those still buffered. */
  datatype State = State(entries: seq<LogEntry>, content: string)

  /** Settings can change between operations; Restart closes the log and opens it again. */
  datatype Op = Record(e: LogEntry, now: string, cfg: Settings) | Push | Wipe | Restart(cfg: Settings)
  {
    predicate Writes() { Record? && cfg.toFile && cfg.fileMaxMB > 0 }
  }

  /** Appending a line: beyond the limit, which ignores the newline, the older half goes first. */
  function Append(content: string, line: string, limit: int): string {
    (if |content| + |line| > limit then content[|content| / 2..] else content) + line + [NL]
  }

  function Restarted(k: Codec, content: string, cfg: Settings): seq<LogEntry> {
    if !cfg.toFile || cfg.fileMaxMB == 0 then [] else Collect(k.Load, Kept(content, cfg.Ring()))
  }

  function Step(k: Codec, s: State, op: Op): State {
    match op
    case Record(e, now, cfg) =>
      var stamped := k.Stamp(e, now);
      State(LastN(s.entries + [stamped], cfg.Ring()),
            if op.Writes() then Append(s.content, k.enc(stamped), cfg.Limit()) else s.content)
    case Push => s
    case Wipe => State([], "")
    case Restart(cfg) => State(Restarted(k, s.content, cfg), s.content)
  }

  function Run(k: Codec, s: State, ops: seq<Op>): State {
    if ops == [] then s else Step(k, Run(k, s, ops[..|ops| - 1]), ops[|ops| - 1])
  }

  // ---- the file is the end of everything logged ----

  /** The entries written since the start, or since the last wipe. */
  function Written(k: Codec, ops: seq<Op>): seq<LogEntry> {
    if ops == [] then []
    else
      var before, op := Written(k, ops[..|ops| - 1]), ops[|ops| - 1];
      if op.Wipe? then [] else if op.Writes() then before + [k.Stamp(op.e, op.now)] else before
  }

  /** What the file held at the start, unless a wipe removed it. */
  function Base(base: string, ops: seq<Op>): string {
    if exists i :: 0 <= i < |ops| && ops[i].Wipe? then "" else base
  }

  lemma AppendIsTail(content: string, line: string, limit: int, all: string)
    requires Tail(content, all)
    ensures Tail(Append(content, line, limit), all + (line + [NL]))
  {
    var kept := if |content| + |line| > limit then content[|content| / 2..] else content;
    DropIsTail(content, |content| - |kept|);
    TailTransitive(kept, content, all);
    TailExtends(kept, all, line + [NL]);
    Regroup(kept, line, [NL]);
  }

  lemma WrittenBytes(k: Codec, base: string, es: seq<LogEntry>, e: LogEntry)
    ensures base + Terminated(Encoded(k, es + [e])) == base + Terminated(Encoded(k, es)) + (k.enc(e) + [NL])
  {
    EncodedConcat(k, es, [e]);
    var one := Encoded(k, [e]);
    assert one == [k.enc(e)] && one[1..] == [];
    TerminatedConcat(Encoded(k, es), one);
    assert Terminated(one) == k.enc(e) + [NL] + Terminated([]) == k.enc(e) + [NL];
    Regroup(base, Terminated(Encoded(k, es)), k.enc(e) + [NL]);
  }

  /** File and buffer are always a suffix of all the lines written since the last wipe, after
      what the file held at the start; across rotations in the middle of a line, changes of
      settings and orderly restarts. */
  lemma {:induction false} ContentIsTail(k: Codec, s: State, ops: seq<Op>)
    ensures Tail(Run(k, s, ops).content, Base(s.content, ops) + Terminated(Encoded(k, Written(k, ops))))
  {
    if ops == [] {
      assert Base(s.content, ops) + Terminated(Encoded(k, [])) == s.content;
    } else {
      var before, op := ops[..|ops| - 1], ops[|ops| - 1];
      ContentIsTail(k, s, before);
      BaseStep(s.content, before, op);
      assert ops == before + [op];
      if op.Writes() {
        var e, base := k.Stamp(op.e, op.now), Base(s.content, before);
        WrittenBytes(k, base, Written(k, before), e);
        AppendIsTail(Run(k, s, before).content, k.enc(e), op.cfg.Limit(), base + Terminated(Encoded(k, Written(k, before))));
      }
    }
  }

  lemma BaseStep(base: string, ops: seq<Op>, op: Op)
    ensures Base(base, ops + [op]) == if op.Wipe? then "" else Base(base, ops)
  {
    var longer := ops + [op];
    assert longer[|ops|] == op;
    if i :| 0 <= i < |ops| && ops[i].Wipe? { assert longer[i].Wipe?; }
  }

  // ---- the ring is the end of everything recorded ----

  function Recorded(k: Codec, ops: seq<Op>): seq<LogEntry> {
    if ops == [] then []
    else
      var before, op := Recorded(k, ops[..|ops| - 1]), ops[|ops| - 1];
      if op.Record? then before + [k.Stamp(op.e, op.now)] else before
  }

  ghost predicate OneLifetime(ops: seq<Op>) { forall i :: 0 <= i < |ops| ==> ops[i].Record? || ops[i].Push? }

  ghost predicate RingSizeIs(ops: seq<Op>, n: nat) {
    forall i :: 0 <= i < |ops| && ops[i].Record? ==> ops[i].cfg.Ring() == n
  }

  /** With one ring size, the ring is exactly the newest entries. */
  lemma {:induction false} RingIsNewest(k: Codec, s: State, ops: seq<Op>, n: nat)
    requires OneLifetime(ops) && RingSizeIs(ops, n) && |s.entries| <= n
    ensures Run(k, s, ops).entries == LastN(s.entries + Recorded(k, ops), n)
  {
    if ops == [] {
      assert s.entries + [] == s.entries;
    } else {
      var before, op := ops[..|ops| - 1], ops[|ops| - 1];
      RingIsNewest(k, s, before, n);
      if op.Record? {
        LastNExtends(s.entries + Recorded(k, before), [k.Stamp(op.e, op.now)], n);
        Associative(s.entries, Recorded(k, before), [k.Stamp(op.e, op.now)]);
      }
    }
  }

  lemma RingStep(ring: seq<LogEntry>, all: seq<LogEntry>, e: LogEntry, n: nat)
    requires Tail(ring, all)
    ensures Tail(LastN(ring + [e], n), all + [e])
  {
    TailExtends(ring, all, [e]);
    TailTransitive(LastN(ring + [e], n), ring + [e], all + [e]);
  }

  /** With changing sizes it is still a suffix, no longer than the last size asked for. */
  lemma {:induction false} RingIsTail(k: Codec, s: State, ops: seq<Op>)
    requires OneLifetime(ops)
    ensures Tail(Run(k, s, ops).entries, s.entries + Recorded(k, ops))
    ensures ops != [] && ops[|ops| - 1].Record? ==> |Run(k, s, ops).entries| <= ops[|ops| - 1].cfg.Ring()
  {
    hide Tail, Append;
    if ops == [] {
      assert s.entries + [] == s.entries;
      WholeIsTail(s.entries);
    } else {
      var before, op := ops[..|ops| - 1], ops[|ops| - 1];
      RingIsTail(k, s, before);
      if op.Record? {
        var ring, all, e := Run(k, s, before).entries, s.entries + Recorded(k, before), k.Stamp(op.e, op.now);
        RingStep(ring, all, e, op.cfg.Ring());
        Associative(s.entries, Recorded(k, before), [e]);
      }
    }
  }

  /** What the ring was last started from: a reload at a restart, or nothing after a wipe. */
  function RingBase(k: Codec, s: State, ops: seq<Op>): seq<LogEntry> {
    if ops == [] then s.entries
    else
      var before, op := ops[..|ops| - 1], ops[|ops| - 1];
      if op.Wipe? then []
      else if op.Restart? then Restarted(k, Run(k, s, before).content, op.cfg)
      else RingBase(k, s, before)
  }

  /** What was recorded since then. */
  function RecordedSince(k: Codec, ops: seq<Op>): seq<LogEntry> {
    if ops == [] then []
    else
      var before, op := RecordedSince(k, ops[..|ops| - 1]), ops[|ops| - 1];
      if op.Wipe? || op.Restart? then [] else if op.Record? then before + [k.Stamp(op.e, op.now)] else before
  }

  /** After any run the ring is a suffix of what was recorded since the last wipe, following
      what the last restart loaded. */
  lemma {:induction false} RingOverRun(k: Codec, s: State, ops: seq<Op>)
    ensures Tail(Run(k, s, ops).entries, RingBase(k, s, ops) + RecordedSince(k, ops))
  {
    hide Tail, Append, Restarted;
    if ops == [] {
      assert s.entries + [] == s.entries;
      WholeIsTail(s.entries);
    } else {
      var before, op := ops[..|ops| - 1], ops[|ops| - 1];
      RingOverRun(k, s, before);
      if op.Record? {
        var base, since, e := RingBase(k, s, before), RecordedSince(k, before), k.Stamp(op.e, op.now);
        RingStep(Run(k, s, before).entries, base + since, e, op.cfg.Ring());
        Associative(base, since, [e]);
      } else if op.Wipe? || op.Restart? {
        assert RingBase(k, s, ops) + [] == RingBase(k, s, ops);
        WholeIsTail(RingBase(k, s, ops));
      }
    }
  }

  /** A wipe leaves nothing in the ring or the file, and no restart brings anything back. */
  lemma WipedStaysWiped(k: Codec, s: State, ops: seq<Op>, cfg: Settings)
    ensures Run(k, s, ops + [Wipe]) == State([], "")
    ensures Run(k, s, ops + [Wipe] + [Restart(cfg)]).entries == []
  {
    var wiped := ops + [Wipe];
    var again := wiped + [Restart(cfg)];
    assert wiped[..|wiped| - 1] == ops && again[..|again| - 1] == wiped;
    NothingKept(cfg.Ring());
    assert Kept("", cfg.Ring()) == [] && Collect(k.Load, []) == [];
  }

  lemma NothingKept(max: nat)
    ensures Kept("", max) == []
  {
    KeptIsSuffix("", max);
    NoLine("");
  }

  /** What Add stores: the entry, with the current time when it had none, and the timestamp
      parsed when the time parses. */
  lemma StampExact(k: Codec, e: LogEntry, now: string)
    ensures var r, time := k.Stamp(e, now), if e.time == "" then now else e.time;
            && r == e.(time := time, t := r.t)
            && r.t == match k.unix(time) case Some(seconds) => seconds case None => e.t
  {
  }

  /** A record reaches the file exactly when file logging is on with a positive limit, and the
      file is read back exactly when logging is on and the limit is not zero. */
  lemma FiledExactly(k: Codec, s: State, e: LogEntry, now: string, cfg: Settings)
    ensures Step(k, s, Record(e, now, cfg)).content
            == if cfg.toFile && cfg.fileMaxMB >= 1 then Append(s.content, k.enc(k.Stamp(e, now)), cfg.fileMaxMB * 1024 * 1024)
               else s.content
    ensures !(cfg.toFile && cfg.fileMaxMB != 0) ==> Step(k, s, Restart(cfg)) == State([], s.content)
    ensures cfg.toFile && cfg.fileMaxMB != 0 ==>
              Step(k, s, Restart(cfg)) == State(Collect(k.Load, Kept(s.content, cfg.Ring())), s.content)
  {
  }

  /** The ring size without a setting, and the limit in bytes. */
  lemma SettingsInNumbers(cfg: Settings)
    ensures cfg.ringSize <= 0 ==> cfg.Ring() == 20000
    ensures cfg.ringSize > 0 ==> cfg.Ring() == cfg.ringSize
    ensures cfg.Limit() == cfg.fileMaxMB * 1024 * 1024
  {
  }

  // ---- what a reload gives ----

  lemma {:induction false} LoadOfEncoded(k: Codec, es: seq<LogEntry>)
    requires k.Faithful()
    ensures Collect(k.Load, Good(Encoded(k, es))) == Collect(k.Reloaded, es)
  {
    if es != [] {
      var e, more := es[0], es[1..];
      assert es == [e] + more;
      LoadOfEncoded(k, more);
      EncodedConcat(k, [e], more);
      assert Encoded(k, [e]) == [k.enc(e)];
      GoodFirst(k.enc(e), Encoded(k, more));
      CollectFirst(k.Load, k.enc(e), Good(Encoded(k, more)));
      CollectFirst(k.Reloaded, e, more);
      assert k.Load(k.enc(e)) == Some(k.Restore(e));
      assert [] + Good(Encoded(k, more)) == Good(Encoded(k, more));
      assert [] + Collect(k.Reloaded, more) == Collect(k.Reloaded, more);
    }
  }

  lemma FragmentLoadsNothing(k: Codec, x: string, e: LogEntry, more: seq<string>)
    requires k.Faithful() && Tail(x, k.enc(e)) && |x| < |k.enc(e)|
    ensures Collect(k.Load, Good([x] + more)) == Collect(k.Load, Good(more))
  {
    assert k.Load(x).None?;
    hide Collect, Good, Codec.Faithful;
    GoodFirst(x, more);
    CollectFirst(k.Load, x, Good(more));
    assert [] + Good(more) == Good(more);
    assert AsSeq(k.Load(x)) + Collect(k.Load, Good(more)) == Collect(k.Load, Good(more));
  }

  /** The end of a line that a rotation left at the front of the file loads as nothing. */
  lemma TornLoadsNothing(k: Codec, torn: seq<string>, es: seq<LogEntry>, from: nat, more: seq<string>)
    requires k.Faithful() && TornFrom(torn, Encoded(k, es), from)
    ensures Collect(k.Load, Good(torn + more)) == Collect(k.Load, Good(more))
  {
    hide Collect, Good, Codec.Faithful;
    if torn == [] {
      assert torn + more == more;
    } else {
      assert torn == [torn[0]];
      FragmentLoadsNothing(k, torn[0], es[from - 1], more);
    }
  }

  lemma OneLine(k: Codec, es: seq<LogEntry>)
    requires k.Faithful()
    ensures OneLineEach(Encoded(k, es))
  {
  }

  lemma TornInside(torn: seq<string>, ls: seq<string>, from: nat)
    requires TornFrom(torn, ls, from)
    ensures from <= |ls|
  {
  }

  /** A file that is the end of the written lines reloads as the end of the entries. */
  lemma ReloadOfTail(k: Codec, content: string, es: seq<LogEntry>, cfg: Settings)
    requires k.Faithful() && Tail(content, Terminated(Encoded(k, es)))
    ensures Tail(Restarted(k, content, cfg), Collect(k.Reloaded, es))
  {
    hide Lines, Rest, Good, Collect, Encoded, Terminated, Kept, Tail, TornFrom, OneLineEach, Codec.Faithful;
    NothingIsTail(Collect(k.Reloaded, es));
    OneLine(k, es);
    var from, torn := LinesOfTail(content, Encoded(k, es));
    TornInside(torn, Encoded(k, es), from);
    var later := Encoded(k, es)[from..];
    KeptIsSuffix(content, cfg.Ring());
    CollectTail(k.Load, Kept(content, cfg.Ring()), Good(Lines(content)));
    TornLoadsNothing(k, torn, es, from, later);
    DropIsTail(Encoded(k, es), from);
    GoodTail(later, Encoded(k, es));
    CollectTail(k.Load, Good(later), Good(Encoded(k, es)));
    LoadOfEncoded(k, es);
    TailTransitive(Collect(k.Load, Kept(content, cfg.Ring())), Collect(k.Load, Good(later)), Collect(k.Reloaded, es));
  }

  /** Restarting after any run gives back a suffix of the entries written since the last
      wipe, in order, never part of one and never one of before; entries of more than 1 MiB
      are not among them. */
  lemma ReloadIsSuffix(k: Codec, s: State, ops: seq<Op>, cfg: Settings)
    requires k.Faithful() && Base(s.content, ops) == ""
    ensures Tail(Restarted(k, Run(k, s, ops).content, cfg), Collect(k.Reloaded, Written(k, ops)))
  {
    ContentIsTail(k, s, ops);
    var all := Terminated(Encoded(k, Written(k, ops)));
    assert "" + all == all;
    ReloadOfTail(k, Run(k, s, ops).content, Written(k, ops), cfg);
  }

  /** So after a restart the ring is a suffix of the entries written since the last wipe. */
  lemma RestartLoadsSuffix(k: Codec, s: State, ops: seq<Op>, cfg: Settings)
    requires k.Faithful() && Base(s.content, ops) == ""
    ensures Tail(Run(k, s, ops + [Restart(cfg)]).entries, Collect(k.Reloaded, Written(k, ops)))
  {
    assert (ops + [Restart(cfg)])[..|ops|] == ops;
    hide Restarted, Run, Written, Tail, Collect;
    ReloadIsSuffix(k, s, ops, cfg);
    StepOfLast(k, s, ops, Restart(cfg));
  }

  lemma StepOfLast(k: Codec, s: State, ops: seq<Op>, op: Op)
    ensures Run(k, s, ops + [op]) == Step(k, Run(k, s, ops), op)
  {
    assert (ops + [op])[..|ops|] == ops;
  }

  // ---- nothing is lost without a rotation ----

  /** Every entry goes to the file and its line is no longer than a reload accepts; the
      unserialised timestamp is left to the log. */
  ghost predicate AllFiled(k: Codec, cfg: Settings, ops: seq<Op>) {
    && cfg.toFile && cfg.fileMaxMB > 0
    && forall i :: 0 <= i < |ops| && ops[i].Record? ==>
         ops[i].cfg == cfg && ops[i].e.t == 0 && Reasonable(k.enc(k.Stamp(ops[i].e, ops[i].now)))
  }

  lemma {:induction false} AllWritten(k: Codec, cfg: Settings, ops: seq<Op>)
    requires OneLifetime(ops) && AllFiled(k, cfg, ops)
    ensures Written(k, ops) == Recorded(k, ops)
    ensures forall i :: 0 <= i < |Recorded(k, ops)| ==> k.Reloaded(Recorded(k, ops)[i]) == Some(Recorded(k, ops)[i])
  {
    if ops != [] {
      var before, op := ops[..|ops| - 1], ops[|ops| - 1];
      AllWritten(k, cfg, before);
    }
  }

  /** While no rotation is due the file holds every line. */
  lemma {:induction false} NoRotation(k: Codec, cfg: Settings, ops: seq<Op>)
    requires OneLifetime(ops) && AllFiled(k, cfg, ops)
    requires |Terminated(Encoded(k, Written(k, ops)))| <= cfg.Limit()
    ensures Run(k, State([], ""), ops).content == Terminated(Encoded(k, Written(k, ops)))
  {
    if ops != [] {
      var before, op := ops[..|ops| - 1], ops[|ops| - 1];
      if op.Record? {
        var e := k.Stamp(op.e, op.now);
        WrittenBytes(k, "", Written(k, before), e);
        assert "" + Terminated(Encoded(k, Written(k, ops))) == Terminated(Encoded(k, Written(k, ops)));
        assert "" + Terminated(Encoded(k, Written(k, before))) == Terminated(Encoded(k, Written(k, before)));
        NoRotation(k, cfg, before);
        Regroup(Run(k, State([], ""), before).content, k.enc(e), [NL]);
      } else {
        NoRotation(k, cfg, before);
      }
    }
  }

  /** Until the file first rotates, and as long as the newest lines fit the read cap, a
      restart gives back the ring exactly. */
  lemma RestartRestoresRing(k: Codec, cfg: Settings, ops: seq<Op>)
    requires k.Faithful() && OneLifetime(ops) && AllFiled(k, cfg, ops)
    requires |Terminated(Encoded(k, Written(k, ops)))| <= cfg.Limit()
    requires !CapBites(Run(k, State([], ""), ops).content, cfg.Ring())
    ensures var end := Run(k, State([], ""), ops);
            && Restarted(k, end.content, cfg) == end.entries
            && Run(k, State([], ""), ops + [Restart(cfg)]) == end
  {
    StepOfLast(k, State([], ""), ops, Restart(cfg));
    hide Lines, Rest, Good, Collect, Terminated, Kept, CapBites, Run, Written, Recorded;
    var es, n := Recorded(k, ops), cfg.Ring();
    NoRotation(k, cfg, ops);
    AllWritten(k, cfg, ops);
    RingIsNewest(k, State([], ""), ops, n);
    assert [] + es == es;
    OneLine(k, es);
    LinesOfTerminated(Encoded(k, es));
    KeptWithoutCap(Run(k, State([], ""), ops).content, n);
    EncodedEnd(k, es, n);
    LoadOfEncoded(k, LastN(es, n));
    AllReloaded(k, LastN(es, n));
  }

  lemma EncodedEnd(k: Codec, es: seq<LogEntry>, n: nat)
    ensures LastN(Encoded(k, es), n) == Encoded(k, LastN(es, n))
  {
  }

  lemma {:induction false} AllReloaded(k: Codec, es: seq<LogEntry>)
    requires forall i :: 0 <= i < |es| ==> k.Reloaded(es[i]) == Some(es[i])
    ensures Collect(k.Reloaded, es) == es
  {
    if es != [] {
      AllReloaded(k, es[1..]);
      assert es == [es[0]] + es[1..];
    }
  }

  // ---- how large the file gets ----

  /** Every write is under the given limit, and no line exceeds half of it. */
  ghost predicate LinesFit(k: Codec, ops: seq<Op>, mb: int) {
    forall i :: 0 <= i < |ops| && ops[i].Writes() ==>
      ops[i].cfg.fileMaxMB == mb && |k.enc(k.Stamp(ops[i].e, ops[i].now))| <= (mb * 0x10_0000 - 1) / 2
  }

  /** Without need nothing goes; a rotation keeps the newer half of the file, rounded up. */
  lemma AppendKeeps(content: string, line: string, limit: int) returns (kept: string)
    ensures Append(content, line, limit) == kept + line + [NL] && Tail(kept, content)
    ensures |content| + |line| <= limit ==> kept == content
    ensures |content| + |line| > limit ==> |kept| == (|content| + 1) / 2
  {
    kept := if |content| + |line| > limit then content[|content| / 2..] else content;
  }

  /** By how much a file is over its bound of limit + 1 bytes. */
  function Excess(content: string, limit: int): nat { if |content| > limit + 1 then |content| - (limit + 1) else 0 }

  lemma AppendHalvesExcess(content: string, line: string, mb: int)
    requires mb > 0 && |line| <= (mb * 0x10_0000 - 1) / 2
    ensures var limit := mb * 0x10_0000;
            Excess(Append(content, line, limit), limit) <= Excess(content, limit) / 2
  {
    var half := mb * 0x8_0000;
    assert mb * 0x10_0000 == 2 * half && half > 0;
    HalfOf(content, line, half);
  }

  lemma HalfOf(content: string, line: string, half: int)
    requires half > 0 && |line| <= (2 * half - 1) / 2
    ensures Excess(Append(content, line, 2 * half), 2 * half) <= Excess(content, 2 * half) / 2
  {
  }

  function Halved(x: nat, times: nat): nat { if times == 0 then x else Halved(x, times - 1) / 2 }

  function WriteCount(ops: seq<Op>): nat {
    if ops == [] then 0 else WriteCount(ops[..|ops| - 1]) + if ops[|ops| - 1].Writes() then 1 else 0
  }

  /** Whatever size the file starts with, each write halves what it has over limit + 1. */
  lemma {:induction false} ExcessHalves(k: Codec, s: State, ops: seq<Op>, mb: int)
    requires mb > 0 && LinesFit(k, ops, mb)
    ensures Excess(Run(k, s, ops).content, mb * 0x10_0000) <= Halved(Excess(s.content, mb * 0x10_0000), WriteCount(ops))
  {
    if ops != [] {
      var before, op := ops[..|ops| - 1], ops[|ops| - 1];
      ExcessHalves(k, s, before, mb);
      if op.Writes() {
        AppendHalvesExcess(Run(k, s, before).content, k.enc(k.Stamp(op.e, op.now)), mb);
      }
    }
  }

  function Pow2(n: nat): nat { if n == 0 then 1 else 2 * Pow2(n - 1) }

  lemma {:induction false} HalvedBelow(x: nat, n: nat, times: nat)
    requires n <= times && x < Pow2(n)
    ensures Halved(x, times) == 0
  {
    HalvedUnder(x, n, n);
    if times > n { HalvedBelow(x, n, times - 1); }
  }

  lemma {:induction false} HalvedUnder(x: nat, n: nat, i: nat)
    requires i <= n && x < Pow2(n)
    ensures Halved(x, i) < Pow2(n - i)
  {
    if i > 0 { HalvedUnder(x, n, i - 1); }
  }

  /** The logical file size never exceeds limit + 1, and a file that starts larger is within
      it after n writes when it was less than 2^n over. */
  lemma SizeBound(k: Codec, s: State, ops: seq<Op>, mb: int, n: nat)
    requires mb > 0 && LinesFit(k, ops, mb)
    requires Excess(s.content, mb * 0x10_0000) < Pow2(n) && n <= WriteCount(ops)
    ensures |Run(k, s, ops).content| <= mb * 0x10_0000 + 1
  {
    ExcessHalves(k, s, ops, mb);
    HalvedBelow(Excess(s.content, mb * 0x10_0000), n, WriteCount(ops));
  }

  /** Exactly when a write leaves the file over its limit, by the newline that the check leaves
      out: when the line ends on the limit, or both file and line are as large as can be. */
  lemma OverLimitExactly(mb: int, content: string, line: string)
    requires mb > 0 && |content| <= mb * 0x10_0000 + 1 && |line| <= (mb * 0x10_0000 - 1) / 2
    ensures var limit := mb * 0x10_0000;
            |Append(content, line, limit)| > limit
            <==> |content| + |line| == limit || (|content| == limit + 1 && |line| == (limit - 1) / 2)
  {
    var half := mb * 0x8_0000;
    assert mb * 0x10_0000 == 2 * half && half > 0;
    OverLimitHalf(content, line, half);
  }

  lemma OverLimitHalf(content: string, line: string, half: int)
    requires half > 0 && |content| <= 2 * half + 1 && |line| <= (2 * half - 1) / 2
    ensures |Append(content, line, 2 * half)| > 2 * half
            <==> |content| + |line| == 2 * half || (|content| == 2 * half + 1 && |line| == (2 * half - 1) / 2)
  {
  }

  /** The bound is reached from an empty file by lines within it, and a line of one byte more
      then breaks it. */
  lemma SizeBoundSharp(mb: int, a: string, b: string, c: string, long: string)
    requires mb > 0 && |a| == (mb * 0x10_0000 - 1) / 2 && |b| == |a| - 2 && |c| == 2 && |long| == |a| + 1
    ensures var limit := mb * 0x10_0000;
            var full := Append(Append(Append("", a, limit), b, limit), c, limit);
            |full| == limit + 1 && |Append(full, long, limit)| == limit + 2
  {
    var half := mb * 0x8_0000;
    assert mb * 0x10_0000 == 2 * half && half >= 0x8_0000;
  }

  // ---- queries ----

  /** The entry matches the user filter and the text query. */
  predicate Wanted(e: LogEntry, user: string, query: string) {
    && (user != "" ==> EqualFold(e.user, user))
    && (query != "" ==>
          Contains(ToLower(e.verb + " " + e.host + " " + e.path + " " + e.outcome + " " + e.user), ToLower(query)))
  }

  lemma LowerConcat(a: string, b: string)
    ensures ToLower(a + b) == ToLower(a) + ToLower(b)
  {
  }

  lemma ContainsPadded(a: string, s: string, b: string, p: string)
    requires Contains(s, p)
    ensures Contains(a + s + b, p)
  {
    var i :| 0 <= i <= |s| && HasPrefix(s[i..], p);
    assert (a + s + b)[|a| + i..] == s[i..] + b;
    assert HasPrefix((a + s + b)[|a| + i..], p);
  }

  lemma PaddedFound(a: string, s: string, b: string, query: string)
    requires Contains(ToLower(s), ToLower(query))
    ensures Contains(ToLower(a + s + b), ToLower(query))
  {
    LowerConcat(a + s, b);
    LowerConcat(a, s);
    ContainsPadded(ToLower(a), ToLower(s), ToLower(b), ToLower(query));
  }

  /** A user filter admits only that user, in any case; without filters everything is wanted;
      and a query finds its text, in any case, in each of the five fields. */
  lemma WantedFinds(e: LogEntry, user: string, query: string)
    ensures Wanted(e, "", "")
    ensures Wanted(e, user, "") <==> user == "" || ToLower(e.user) == ToLower(user)
    ensures Wanted(e, user, query) ==> Wanted(e, user, "")
    ensures Wanted(e, user, "") && query != "" && Contains(ToLower(e.verb), ToLower(query)) ==> Wanted(e, user, query)
    ensures Wanted(e, user, "") && query != "" && Contains(ToLower(e.host), ToLower(query)) ==> Wanted(e, user, query)
    ensures Wanted(e, user, "") && query != "" && Contains(ToLower(e.path), ToLower(query)) ==> Wanted(e, user, query)
    ensures Wanted(e, user, "") && query != "" && Contains(ToLower(e.outcome), ToLower(query)) ==> Wanted(e, user, query)
    ensures Wanted(e, user, "") && query != "" && Contains(ToLower(e.user), ToLower(query)) ==> Wanted(e, user, query)
  {
    if query != "" {
      var v, h, p, o, u := e.verb, e.host, e.path, e.outcome, e.user;
      var all := v + " " + h + " " + p + " " + o + " " + u;
      assert all == "" + v + (" " + h + " " + p + " " + o + " " + u);
      assert all == (v + " ") + h + (" " + p + " " + o + " " + u);
      assert all == (v + " " + h + " ") + p + (" " + o + " " + u);
      assert all == (v + " " + h + " " + p + " ") + o + (" " + u);
      assert all == (v + " " + h + " " + p + " " + o + " ") + u + "";
      hide Contains, ToLower;
      if Contains(ToLower(v), ToLower(query)) { PaddedFound("", v, " " + h + " " + p + " " + o + " " + u, query); }
      if Contains(ToLower(h), ToLower(query)) { PaddedFound(v + " ", h, " " + p + " " + o + " " + u, query); }
      if Contains(ToLower(p), ToLower(query)) { PaddedFound(v + " " + h + " ", p, " " + o + " " + u, query); }
      if Contains(ToLower(o), ToLower(query)) { PaddedFound(v + " " + h + " " + p + " ", o, " " + u, query); }
      if Contains(ToLower(u), ToLower(query)) { PaddedFound(v + " " + h + " " + p + " " + o + " ", u, "", query); }
    }
  }

  function Selected(user: string, query: string): LogEntry -> Option<LogEntry> {
    (e: LogEntry) => if Wanted(e, user, query) then Some(e) else None
  }

  // ---- the source's own form ----

  const BUFFER: nat := 0x1_0000

  class LogStore {
    const codec: Codec
    var entries: seq<LogEntry>
    var file: string
    var bw: string
    var fileSize: int

    ghost predicate Valid()
      reads this
    {
      |bw| <= BUFFER && fileSize == |file| + |bw|
    }

    ghost function View(): State
      reads this
    {
      State(entries, file + bw)
    }

    /** NewLogStore on a file with the given bytes. */
    constructor (codec: Codec, disk: string, cfg: Settings)
      ensures this.codec == codec && Valid() && bw == ""
      ensures View() == Step(codec, State([], disk), Restart(cfg))
    {
      this.codec := codec;
      entries, file, bw, fileSize := [], disk, "", |disk|;
      new;
      LoadFile(cfg);
      assert file + bw == disk;
    }

    method LoadFile(cfg: Settings)
      modifies this`entries
      requires entries == []
      ensures entries == Restarted(codec, file, cfg)
    {
      hide Kept;
      if !cfg.toFile || cfg.fileMaxMB == 0 {
        return;
      }
      var lines := ReadWindow(file, cfg.Ring());
      var loaded := [];
      for i := 0 to |lines|
        invariant entries == []
        invariant loaded == Collect(codec.Load, lines[..i])
      {
        assert lines[..i + 1] == lines[..i] + [lines[i]];
        CollectConcat(codec.Load, lines[..i], [lines[i]]);
        CollectFirst(codec.Load, lines[i], []);
        assert [lines[i]] + [] == [lines[i]];
        var e := codec.dec(lines[i]);
        if e.Some? {
          loaded := loaded + [codec.Timed(e.value)];
        }
      }
      assert lines[..|lines|] == lines;
      entries := loaded;
    }

    method Add(e: LogEntry, now: string, cfg: Settings)
      requires Valid()
      modifies this
      ensures Valid() && View() == Step(codec, old(View()), Record(e, now, cfg))
    {
      hide Append, Codec.Stamp, Codec.Timed;
      var stamped := codec.Stamp(e, now);
      entries := entries + [stamped];
      var max := if cfg.ringSize <= 0 then 20000 else cfg.ringSize;
      if |entries| > max {
        entries := entries[|entries| - max..];
      }
      if cfg.toFile && cfg.fileMaxMB > 0 {
        WriteFile(codec.enc(stamped), cfg.Limit());
      }
    }

    method WriteFile(line: string, maxBytes: int)
      requires Valid()
      modifies this`file, this`bw, this`fileSize
      ensures Valid() && file + bw == Append(old(file + bw), line, maxBytes)
    {
      if fileSize + |line| > maxBytes {
        Rotate();
      }
      Regroup(file + bw, line, [NL]);
      Write(line + [NL]);
      fileSize := fileSize + |line| + 1;
    }

    /** Keeps the newer half of the file. */
    method Rotate()
      requires Valid()
      modifies this`file, this`bw, this`fileSize
      ensures Valid() && bw == "" && file == old(file + bw)[old(fileSize) / 2..]
    {
      Flush();
      var size := |file|;
      var keep := size / 2;
      if keep > 0 {
        file := file[keep..];
      }
      fileSize := |file|;
    }

    /** The buffered writer: a write that does not fit goes out in pieces. */
    method Write(p: string)
      requires |bw| <= BUFFER
      modifies this`file, this`bw
      ensures |bw| <= BUFFER && file + bw == old(file + bw) + p
    {
      var rest := p;
      while |rest| > BUFFER - |bw|
        invariant |bw| <= BUFFER && file + bw + rest == old(file + bw) + p
        decreases |rest|, |bw|
      {
        if |bw| == 0 {
          file, rest := file + rest, "";
        } else {
          var n := BUFFER - |bw|;
          assert file + bw + rest == file + bw + rest[..n] + "" + rest[n..];
          file, bw, rest := file + bw + rest[..n], "", rest[n..];
        }
      }
      Regroup(file, bw, rest);
      bw := bw + rest;
    }

    method Flush()
      requires Valid()
      modifies this`file, this`bw
      ensures Valid() && bw == "" && file == old(file + bw)
    {
      file, bw := file + bw, "";
    }

    method Clear()
      requires Valid()
      modifies this
      ensures Valid() && View() == Step(codec, old(View()), Wipe)
      ensures entries == [] && file == "" && bw == ""
    {
      entries := [];
      Flush();
      file, bw, fileSize := "", "", 0;
    }

    /** The newest matching entries, newest first. */
    method Recent(limit: int, user: string, query: string) returns (out: seq<LogEntry>)
      ensures out == Reversed(LastN(Collect(Selected(user, query), entries),
                                    if limit <= 0 then 200 else if limit > 5000 then 5000 else limit))
    {
      hide Wanted, Newest, Reversed, LastN, Collect;
      var max := if limit <= 0 then 200 else limit;
      if max > 5000 {
        max := 5000;
      }
      out := [];
      var i := |entries| - 1;
      assert entries[..i + 1] == entries;
      while i >= 0 && |out| < max
        invariant -1 <= i < |entries| && |out| <= max
        invariant out + Newest(Selected(user, query), entries[..i + 1], max - |out|)
                  == Newest(Selected(user, query), entries, max)
      {
        var e := entries[i];
        NewestStep(Selected(user, query), entries, i, max - |out|);
        if Wanted(e, user, query) {
          out := out + [e];
        }
        i := i - 1;
      }
      NewestDone(Selected(user, query), entries[..i + 1], max - |out|);
      NewestIsReversedEnd(Selected(user, query), entries, max);
    }
  }
}
