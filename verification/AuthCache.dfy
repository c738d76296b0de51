/** The memoised password check: two critical sections with the key derivation between
    them, and any number of requests interleaving. The derivation is a parameter. */
module AuthCache {
  import opened Wrappers

  const CACHE_TTL := 300
  const CACHE_MAX := 4096

  type Kdf = (string, string) -> bool

  datatype Entry = Entry(ok: bool, expires: int)

  type Cache = map<string, Entry>

  const NUL: char := '\0'

  function Key(hash: string, password: string): string { hash + [NUL, NUL] + password }

  /** Two stored hashes, one of which can be taken for the other and the start of a password. */
  predicate Clash(h1: string, h2: string) {
    h1 != h2 && (Key(h1, "") <= Key(h2, "") || Key(h2, "") <= Key(h1, ""))
  }

  lemma KeyStarts(h: string, p: string)
    ensures Key(h, p) == Key(h, "") + p && Key(h, "") <= Key(h, p)
  {
  }

  lemma PrefixesOfOne(a: string, b: string, c: string)
    requires a <= c && b <= c && |a| <= |b|
    ensures a <= b
  {
  }

  lemma SharedKeyClashes(h1: string, p1: string, h2: string, p2: string)
    requires Key(h1, p1) == Key(h2, p2)
    ensures h1 == h2 || Clash(h1, h2)
  {
    KeyStarts(h1, p1);
    KeyStarts(h2, p2);
    if |h1| <= |h2| {
      PrefixesOfOne(Key(h1, ""), Key(h2, ""), Key(h1, p1));
    } else {
      PrefixesOfOne(Key(h2, ""), Key(h1, ""), Key(h1, p1));
    }
  }

  lemma ClashSharesKey(h1: string, h2: string) returns (p1: string, p2: string)
    requires Clash(h1, h2)
    ensures Key(h1, p1) == Key(h2, p2)
  {
    var k1, k2 := Key(h1, ""), Key(h2, "");
    p1, p2 := if k1 <= k2 then k2[|k1|..] else "", if k1 <= k2 then "" else k1[|k2|..];
    KeyStarts(h1, p1);
    KeyStarts(h2, p2);
  }

  /** Two different hashes can share a key exactly when they clash. */
  lemma KeysSharedExactly(h1: string, h2: string)
    requires h1 != h2
    ensures (exists p1, p2 :: Key(h1, p1) == Key(h2, p2)) <==> Clash(h1, h2)
  {
    if p1, p2 :| Key(h1, p1) == Key(h2, p2) { SharedKeyClashes(h1, p1, h2, p2); }
    if Clash(h1, h2) { var p1, p2 := ClashSharesKey(h1, h2); }
  }

  /** With hashes that do not clash a key stands for one pair. */
  lemma KeyInjective(h1: string, p1: string, h2: string, p2: string)
    requires !Clash(h1, h2) && Key(h1, p1) == Key(h2, p2)
    ensures h1 == h2 && p1 == p2
  {
    SharedKeyClashes(h1, p1, h2, p2);
    assert Key(h1, p1)[|h1| + 2..] == p1 && Key(h2, p2)[|h2| + 2..] == p2;
  }

  /** Hashes without NUL bytes never clash. */
  lemma NulFreeNeverClash(h1: string, h2: string)
    requires NUL !in h1 && NUL !in h2
    ensures !Clash(h1, h2)
  {
    if |h1| < |h2| {
      NulFreeNotStart(h1, h2);
    } else if |h2| < |h1| {
      NulFreeNotStart(h2, h1);
    } else if Key(h1, "") == Key(h2, "") {
      assert Key(h1, "")[..|h1|] == h1 && Key(h2, "")[..|h2|] == h2;
    }
  }

  lemma NulFreeNotStart(short: string, long: string)
    requires |short| < |long| && NUL !in long
    ensures !(Key(short, "") <= Key(long, "")) && !(Key(long, "") <= Key(short, ""))
  {
    assert Key(short, "")[|short|] == NUL && Key(long, "")[|short|] == long[|short|];
  }

  // ---- the two sections ----

  function Lookup(cache: Cache, hash: string, password: string, now: int): Option<bool> {
    var k := Key(hash, password);
    if k in cache && now < cache[k].expires then Some(cache[k].ok) else None
  }

  /** A full map first loses its expired entries; if it stays full nothing is stored. */
  function Insert(cache: Cache, hash: string, password: string, now: int, ok: bool): Cache {
    var swept := if |cache| >= CACHE_MAX then map k | k in cache && now <= cache[k].expires :: cache[k] else cache;
    if |swept| >= CACHE_MAX then swept else swept[Key(hash, password) := Entry(ok, now + CACHE_TTL)]
  }

  /** An answer put into a map of fewer than 4096 entries is served for 300 seconds and then no
      more; other keys keep theirs. */
  lemma ServedFor300Seconds(cache: Cache, hash: string, password: string, now: int, ok: bool, later: int)
    requires |cache| < 4096
    ensures Lookup(Insert(cache, hash, password, now, ok), hash, password, later) == if later < now + 300 then Some(ok) else None
    ensures forall h, p :: Key(h, p) != Key(hash, password) ==>
              Lookup(Insert(cache, hash, password, now, ok), h, p, later) == Lookup(cache, h, p, later)
  {
    hide Key;
  }

  /** A full map drops what has expired and nothing else, and takes the answer if that made room. */
  lemma FullMapSweeps(cache: Cache, hash: string, password: string, now: int, ok: bool)
    requires |cache| >= 4096
    ensures var after := Insert(cache, hash, password, now, ok);
            && (forall k :: k in cache && k != Key(hash, password) ==> (k in after <==> now <= cache[k].expires))
            && (forall k :: k in after && k != Key(hash, password) ==> k in cache && after[k] == cache[k])
            && ((forall k :: k in cache ==> now <= cache[k].expires) ==> after == cache)
  {
    hide Key;
    if forall k :: k in cache ==> now <= cache[k].expires {
      var swept := map k | k in cache && now <= cache[k].expires :: cache[k];
      assert swept == cache;
    }
  }

  // ---- interleavings ----

  datatype Phase = Started | Missed | Derived(ok: bool) | Answered(ok: bool)

  /** A request reads the clock once, before its first section. */
  datatype Request = Request(hash: string, password: string, now: int, phase: Phase)

  datatype State = State(cache: Cache, requests: seq<Request>)

  function Step(kdf: Kdf, s: State, i: nat): State
    requires i < |s.requests|
  {
    var r := s.requests[i];
    match r.phase
    case Started =>
      var hit := Lookup(s.cache, r.hash, r.password, r.now);
      s.(requests := s.requests[i := r.(phase := if hit.Some? then Answered(hit.value) else Missed)])
    case Missed => s.(requests := s.requests[i := r.(phase := Derived(kdf(r.hash, r.password)))])
    case Derived(ok) =>
      State(Insert(s.cache, r.hash, r.password, r.now, ok), s.requests[i := r.(phase := Answered(ok))])
    case Answered(_) => s
  }

  function Run(kdf: Kdf, s: State, schedule: seq<nat>): (r: State)
    requires forall k :: 0 <= k < |schedule| ==> schedule[k] < |s.requests|
    ensures |r.requests| == |s.requests|
  {
    if schedule == [] then s
    else Step(kdf, Run(kdf, s, schedule[..|schedule| - 1]), schedule[|schedule| - 1])
  }

  /** Every entry under the key of one of the hashes is the derivation's answer. */
  ghost predicate Truthful(kdf: Kdf, hashes: set<string>, cache: Cache) {
    forall h, p :: h in hashes && Key(h, p) in cache ==> cache[Key(h, p)].ok == kdf(h, p)
  }

  ghost predicate NoClash(hashes: set<string>) {
    forall h1, h2 :: h1 in hashes && h2 in hashes ==> !Clash(h1, h2)
  }

  predicate Settled(kdf: Kdf, hashes: set<string>, r: Request) {
    && r.hash in hashes
    && (r.phase.Derived? || r.phase.Answered? ==> r.phase.ok == kdf(r.hash, r.password))
  }

  ghost predicate Inv(kdf: Kdf, hashes: set<string>, s: State) {
    && Truthful(kdf, hashes, s.cache) && |s.cache| <= CACHE_MAX
    && forall i :: 0 <= i < |s.requests| ==> Settled(kdf, hashes, s.requests[i])
  }

  lemma InsertTruthful(kdf: Kdf, hashes: set<string>, cache: Cache, hash: string, password: string, now: int)
    requires Truthful(kdf, hashes, cache) && NoClash(hashes) && hash in hashes
    ensures Truthful(kdf, hashes, Insert(cache, hash, password, now, kdf(hash, password)))
  {
    hide Key, Clash;
    var after := Insert(cache, hash, password, now, kdf(hash, password));
    forall h, p | h in hashes && Key(h, p) in after ensures after[Key(h, p)].ok == kdf(h, p) {
      if Key(h, p) == Key(hash, password) { KeyInjective(h, p, hash, password); }
    }
  }

  lemma PutGrowsByOne(m: Cache, k: string, e: Entry)
    ensures |m[k := e]| <= |m| + 1
  {
    assert m[k := e].Keys == m.Keys + {k};
  }

  lemma InsertBounded(cache: Cache, hash: string, password: string, now: int, ok: bool)
    requires |cache| <= CACHE_MAX
    ensures |Insert(cache, hash, password, now, ok)| <= CACHE_MAX
  {
    hide Key;
    var swept := if |cache| >= CACHE_MAX then map k | k in cache && now <= cache[k].expires :: cache[k] else cache;
    SubsetSize(swept.Keys, cache.Keys);
    PutGrowsByOne(swept, Key(hash, password), Entry(ok, now + CACHE_TTL));
  }

  lemma SubsetSize<A>(a: set<A>, b: set<A>)
    requires a <= b
    ensures |a| <= |b|
  {
    assert b == a + (b - a);
  }

  /** All requests not yet started, over stored hashes of the set. */
  ghost predicate Fresh(s: State, hashes: set<string>) {
    && s.cache == map[]
    && forall i :: 0 <= i < |s.requests| ==> s.requests[i].phase == Started && s.requests[i].hash in hashes
  }

  /** Caching is invisible while no two stored hashes clash: under every interleaving each
      finished request has the answer the derivation would give, and the map never outgrows
      its bound. */
  lemma {:induction false} CacheTransparent(kdf: Kdf, hashes: set<string>, s0: State, schedule: seq<nat>)
    requires forall k :: 0 <= k < |schedule| ==> schedule[k] < |s0.requests|
    requires NoClash(hashes) && Fresh(s0, hashes)
    ensures Inv(kdf, hashes, Run(kdf, s0, schedule))
  {
    hide Key, Clash;
    if schedule != [] {
      var n := |schedule| - 1;
      var b, i := Run(kdf, s0, schedule[..n]), schedule[n];
      CacheTransparent(kdf, hashes, s0, schedule[..n]);
      var r := b.requests[i];
      assert Settled(kdf, hashes, r);
      InsertTruthful(kdf, hashes, b.cache, r.hash, r.password, r.now);
      InsertBounded(b.cache, r.hash, r.password, r.now, kdf(r.hash, r.password));
    }
  }

  /** So in particular for stored hashes without NUL bytes. */
  lemma NulFreeTransparent(kdf: Kdf, hashes: set<string>, s0: State, schedule: seq<nat>)
    requires forall k :: 0 <= k < |schedule| ==> schedule[k] < |s0.requests|
    requires (forall h :: h in hashes ==> NUL !in h) && Fresh(s0, hashes)
    ensures Inv(kdf, hashes, Run(kdf, s0, schedule))
  {
    forall h1, h2 | h1 in hashes && h2 in hashes ensures !Clash(h1, h2) { NulFreeNeverClash(h1, h2); }
    CacheTransparent(kdf, hashes, s0, schedule);
  }

  lemma FirstInserts(kdf: Kdf, h: string, p: string, now: int, second: Request)
    ensures var s0 := State(map[], [Request(h, p, now, Started), second]);
            var s3 := Step(kdf, Step(kdf, Step(kdf, s0, 0), 0), 0);
            s3.cache == map[Key(h, p) := Entry(kdf(h, p), now + CACHE_TTL)] && s3.requests[1] == second
  {
  }

  lemma RunFour(kdf: Kdf, s: State)
    requires |s.requests| == 2
    ensures Run(kdf, s, [0, 0, 0, 1]) == Step(kdf, Step(kdf, Step(kdf, Step(kdf, s, 0), 0), 0), 1)
  {
    hide Step;
    var order := [0, 0, 0, 1];
    assert order[..3] == [0, 0, 0] && [0, 0, 0][..2] == [0, 0] && [0, 0][..1] == [0] && [0][..0] == [];
    assert Run(kdf, s, [0]) == Step(kdf, s, 0);
    assert Run(kdf, s, [0, 0]) == Step(kdf, Step(kdf, s, 0), 0);
    assert Run(kdf, s, [0, 0, 0]) == Step(kdf, Step(kdf, Step(kdf, s, 0), 0), 0);
  }

  /** And never otherwise: for every two stored hashes that clash there are a derivation and
      two requests, one after the other, the second of which is answered wrongly. */
  lemma ClashMisleads(h1: string, h2: string, now: int) returns (kdf: Kdf, p1: string, p2: string)
    requires Clash(h1, h2)
    ensures var s0 := State(map[], [Request(h1, p1, now, Started), Request(h2, p2, now, Started)]);
            Run(kdf, s0, [0, 0, 0, 1]).requests[1].phase == Answered(!kdf(h2, p2))
  {
    p1, p2 := ClashSharesKey(h1, h2);
    kdf := (h: string, p: string) => h == h1;
    hide Run, Key, Clash;
    var second := Request(h2, p2, now, Started);
    FirstInserts(kdf, h1, p1, now, second);
    RunFour(kdf, State(map[], [Request(h1, p1, now, Started), second]));
    assert h1 != h2 by { ClashDiffers(h1, h2); }
  }

  lemma ClashDiffers(h1: string, h2: string)
    requires Clash(h1, h2)
    ensures h1 != h2
  {
  }

  // ---- how old a served answer can be ----

  /** Request j put the entry under the key. */
  predicate Stored(kdf: Kdf, s: State, key: string, j: nat) {
    && key in s.cache && j < |s.requests|
    && var r := s.requests[j];
       Key(r.hash, r.password) == key && s.cache[key] == Entry(kdf(r.hash, r.password), r.now + CACHE_TTL)
  }

  ghost predicate AllStored(kdf: Kdf, s: State) {
    && (forall i :: 0 <= i < |s.requests| && s.requests[i].phase.Derived? ==>
          s.requests[i].phase.ok == kdf(s.requests[i].hash, s.requests[i].password))
    && forall key :: key in s.cache ==> exists j: nat :: Stored(kdf, s, key, j)
  }

  lemma StepStores(kdf: Kdf, s: State, i: nat)
    requires i < |s.requests| && AllStored(kdf, s)
    ensures AllStored(kdf, Step(kdf, s, i))
  {
    hide Key;
    var e := Step(kdf, s, i);
    forall key | key in e.cache ensures exists j: nat :: Stored(kdf, e, key, j) {
      var r := s.requests[i];
      if r.phase.Derived? && key == Key(r.hash, r.password) && e.cache[key] == Entry(r.phase.ok, r.now + CACHE_TTL) {
        assert Stored(kdf, e, key, i);
      } else {
        var j: nat :| Stored(kdf, s, key, j);
        assert Stored(kdf, e, key, j);
      }
    }
  }

  lemma {:induction false} RunStores(kdf: Kdf, s0: State, schedule: seq<nat>)
    requires forall k :: 0 <= k < |schedule| ==> schedule[k] < |s0.requests|
    requires s0.cache == map[] && forall i :: 0 <= i < |s0.requests| ==> s0.requests[i].phase == Started
    ensures AllStored(kdf, Run(kdf, s0, schedule))
  {
    if schedule != [] {
      var n := |schedule| - 1;
      RunStores(kdf, s0, schedule[..n]);
      StepStores(kdf, Run(kdf, s0, schedule[..n]), schedule[n]);
    }
  }

  /** Over every run an answer served from the map is one that some request j with the same
      key derived, on a clock reading less than the lifetime of an entry before this one's. */
  lemma ServedAnswerIsRecent(kdf: Kdf, s0: State, schedule: seq<nat>, i: nat) returns (j: nat)
    requires forall k :: 0 <= k < |schedule| ==> schedule[k] < |s0.requests|
    requires s0.cache == map[] && forall i :: 0 <= i < |s0.requests| ==> s0.requests[i].phase == Started
    requires i < |s0.requests| && Run(kdf, s0, schedule).requests[i].phase.Started?
    requires Step(kdf, Run(kdf, s0, schedule), i).requests[i].phase.Answered?
    ensures j < |s0.requests|
    ensures var before := Run(kdf, s0, schedule).requests;
            && Key(before[j].hash, before[j].password) == Key(before[i].hash, before[i].password)
            && before[i].now < before[j].now + CACHE_TTL
            && Step(kdf, Run(kdf, s0, schedule), i).requests[i].phase == Answered(kdf(before[j].hash, before[j].password))
  {
    hide Key;
    RunStores(kdf, s0, schedule);
    var s := Run(kdf, s0, schedule);
    var r := s.requests[i];
    j :| Stored(kdf, s, Key(r.hash, r.password), j);
  }

  // ---- the source's own form ----

  class PasswordCache {
    const kdf: Kdf
    var authCache: Cache

    constructor (kdf: Kdf)
      ensures this.kdf == kdf && authCache == map[]
    {
      this.kdf, authCache := kdf, map[];
    }

    /** One call with no other call between its sections. */
    method VerifyCached(hash: string, password: string, now: int, ghost hashes: set<string>) returns (ok: bool)
      requires Truthful(kdf, hashes, authCache) && |authCache| <= CACHE_MAX && NoClash(hashes) && hash in hashes
      modifies this
      ensures ok == kdf(hash, password)
      ensures Truthful(kdf, hashes, authCache) && |authCache| <= CACHE_MAX
      ensures authCache == match Lookup(old(authCache), hash, password, now)
                           case Some(_) => old(authCache)
                           case None => Insert(old(authCache), hash, password, now, ok)
    {
      InsertTruthful(kdf, hashes, authCache, hash, password, now);
      InsertBounded(authCache, hash, password, now, kdf(hash, password));
      var key := hash + [NUL, NUL] + password;
      assert key == Key(hash, password);
      if key in authCache && now < authCache[key].expires {
        return authCache[key].ok;
      }
      ok := kdf(hash, password);
      if |authCache| >= CACHE_MAX {
        DropExpired(now);
        if |authCache| >= CACHE_MAX {
          return;
        }
      }
      authCache := authCache[key := Entry(ok, now + CACHE_TTL)];
    }

    method DropExpired(now: int)
      modifies this
      ensures authCache == map k | k in old(authCache) && now <= old(authCache)[k].expires :: old(authCache)[k]
    {
      var keys := authCache.Keys;
      while keys != {}
        invariant keys <= old(authCache).Keys
        invariant forall k :: k in authCache <==> k in old(authCache) && (k in keys || now <= old(authCache)[k].expires)
        invariant forall k :: k in authCache ==> authCache[k] == old(authCache)[k]
      {
        var k :| k in keys;
        if now > authCache[k].expires {
          authCache := authCache - {k};
        }
        keys := keys - {k};
      }
    }
  }
}
