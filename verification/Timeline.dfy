/** The dashboard aggregation: one pass over the ring into per-bucket and per-user
    accumulators, zero-filled buckets, and the ten heaviest users. Times of day are in
    nanoseconds, byte totals are 64-bit and wrap. */
module Timeline {
  import opened Wrappers
  import opened Arithmetic
  import opened Text
  import opened LogEntries

  const NANOS := 1_000_000_000
  const M64: int := 0x1_0000_0000_0000_0000
  const TOP_USERS := 10

  // ---- the naive reading: classify, then add up ----

  datatype Metric = Requests | Allowed | Denied | Errors | BytesIn | BytesOut

  function Weight(e: LogEntry, m: Metric): int {
    var denied := HasPrefix(e.outcome, "DENIED");
    var failed := !denied && HasPrefix(e.outcome, "ERROR");
    match m
    case Requests => 1
    case Denied => if denied then 1 else 0
    case Errors => if failed then 1 else 0
    case Allowed => if !denied && !failed then 1 else 0
    case BytesIn => e.bytesIn
    case BytesOut => e.bytesOut
  }

  function Total(es: seq<LogEntry>, m: Metric): int {
    if es == [] then 0 else Total(es[..|es| - 1], m) + Weight(es[|es| - 1], m)
  }

  /** The entries a classifier puts under a key. */
  function Class<K(==)>(es: seq<LogEntry>, f: LogEntry -> Option<K>, k: K): seq<LogEntry> {
    if es == [] then []
    else
      var e := es[|es| - 1];
      Class(es[..|es| - 1], f, k) + if f(e) == Some(k) then [e] else []
  }

  /** The entries it puts under any key. */
  function Classified<K>(es: seq<LogEntry>, f: LogEntry -> Option<K>): seq<LogEntry> {
    if es == [] then []
    else
      var e := es[|es| - 1];
      Classified(es[..|es| - 1], f) + if f(e).Some? then [e] else []
  }

  function TotalOverKeys<K(==)>(es: seq<LogEntry>, f: LogEntry -> Option<K>, keys: seq<K>, m: Metric): int {
    if keys == [] then 0
    else TotalOverKeys(es, f, keys[..|keys| - 1], m) + Total(Class(es, f, keys[|keys| - 1]), m)
  }

  lemma TotalAppend(es: seq<LogEntry>, e: LogEntry, m: Metric)
    ensures Total(es + [e], m) == Total(es, m) + Weight(e, m)
  {
    assert (es + [e])[..|es|] == es;
  }

  lemma ClassAppend<K>(es: seq<LogEntry>, e: LogEntry, f: LogEntry -> Option<K>, k: K)
    ensures Class(es + [e], f, k) == if f(e) == Some(k) then Class(es, f, k) + [e] else Class(es, f, k)
  {
    assert (es + [e])[..|es|] == es;
  }

  ghost predicate Distinct<K>(keys: seq<K>) {
    forall i, j :: 0 <= i < j < |keys| ==> keys[i] != keys[j]
  }

  lemma {:induction false} KeysAppend<K>(es: seq<LogEntry>, e: LogEntry, f: LogEntry -> Option<K>, keys: seq<K>, m: Metric)
    requires Distinct(keys)
    ensures TotalOverKeys(es + [e], f, keys, m)
            == TotalOverKeys(es, f, keys, m) + if f(e).Some? && f(e).value in keys then Weight(e, m) else 0
  {
    if keys != [] {
      var init, k := keys[..|keys| - 1], keys[|keys| - 1];
      assert Distinct(init);
      KeysAppend(es, e, f, init, m);
      ClassAppend(es, e, f, k);
      TotalAppend(Class(es, f, k), e, m);
      LastKey(keys);
      assert TotalOverKeys(es, f, keys, m) == TotalOverKeys(es, f, init, m) + Total(Class(es, f, k), m);
      assert TotalOverKeys(es + [e], f, keys, m) == TotalOverKeys(es + [e], f, init, m) + Total(Class(es + [e], f, k), m);
    }
  }

  lemma LastKey<K>(keys: seq<K>)
    requires keys != [] && Distinct(keys)
    ensures var init, k := keys[..|keys| - 1], keys[|keys| - 1];
            k !in init && forall x :: x in keys <==> x in init || x == k
  {
    assert keys == keys[..|keys| - 1] + [keys[|keys| - 1]];
  }

  lemma {:induction false} NoEntries<K>(f: LogEntry -> Option<K>, keys: seq<K>, m: Metric)
    ensures TotalOverKeys([], f, keys, m) == 0
  {
    if keys != [] { NoEntries(f, keys[..|keys| - 1], m); }
  }

  lemma ClassifiedAppend<K>(es: seq<LogEntry>, e: LogEntry, f: LogEntry -> Option<K>)
    ensures Classified(es + [e], f) == if f(e).Some? then Classified(es, f) + [e] else Classified(es, f)
  {
    assert (es + [e])[..|es|] == es;
  }

  /** Every classified entry is counted under exactly one key, so totals over distinct keys
      that cover the entries are the overall totals. */
  lemma {:induction false} TotalsConserved<K>(es: seq<LogEntry>, f: LogEntry -> Option<K>, keys: seq<K>, m: Metric)
    requires Distinct(keys)
    requires forall i :: 0 <= i < |es| && f(es[i]).Some? ==> f(es[i]).value in keys
    ensures TotalOverKeys(es, f, keys, m) == Total(Classified(es, f), m)
  {
    if es == [] {
      NoEntries(f, keys, m);
    } else {
      hide Distinct, Total, TotalOverKeys, Classified, Weight;
      var rest, e := es[..|es| - 1], es[|es| - 1];
      assert es == rest + [e];
      TotalsConserved(rest, f, keys, m);
      KeysAppend(rest, e, f, keys, m);
      ClassifiedAppend(rest, e, f);
      TotalAppend(Classified(rest, f), e, m);
    }
  }

  lemma {:induction false} OutcomesPartition(es: seq<LogEntry>)
    ensures Total(es, Requests) == |es| == Total(es, Allowed) + Total(es, Denied) + Total(es, Errors)
    ensures Total(es, Allowed) >= 0 && Total(es, Denied) >= 0 && Total(es, Errors) >= 0
  {
    if es != [] { OutcomesPartition(es[..|es| - 1]); }
  }

  // ---- the window ----

  /** parse stands for the RFC 3339 parser. */
  datatype Query = Query(since: int, now: int, bucketSec: int, user: string, parse: string -> Option<int>)

  function When(q: Query, e: LogEntry): Option<int> {
    if e.t != 0 then Some(e.t * NANOS) else q.parse(e.time)
  }

  predicate InWindow(q: Query, e: LogEntry) {
    && When(q, e).Some? && q.since <= When(q, e).value <= q.now
    && (q.user == "" || EqualFold(e.user, q.user))
  }

  /** Go's integer division truncates toward zero. */
  function TruncDiv(a: int, b: int): int
    requires b > 0
  {
    if a >= 0 then a / b else -((-a) / b)
  }

  function BucketOf(q: Query, nanos: int): int
    requires q.bucketSec > 0
  {
    TruncDiv(nanos / NANOS, q.bucketSec) * q.bucketSec
  }

  function BucketKey(q: Query): LogEntry -> Option<int>
    requires q.bucketSec > 0
  {
    (e: LogEntry) => if InWindow(q, e) then Some(BucketOf(q, When(q, e).value)) else None
  }

  function UserKey(q: Query): LogEntry -> Option<string> {
    (e: LogEntry) => if InWindow(q, e) && e.user != "" then Some(e.user) else None
  }

  lemma TruncDivMono(a: int, c: int, b: int)
    requires b > 0 && a <= c
    ensures TruncDiv(a, b) <= TruncDiv(c, b)
  {
    if a >= 0 {
      DivMono(a, c, b);
    } else if c < 0 {
      DivMono(-c, -a, b);
    } else {
      QuotientAtLeast(0, b, -a);
      QuotientAtLeast(0, b, c);
    }
  }

  lemma DivMono(a: int, c: int, b: int)
    requires b > 0 && a <= c
    ensures a / b <= c / b
  {
    assert a == a / b * b + a % b;
    QuotientAtLeast(a / b, b, c);
  }

  // ---- the answer ----

  datatype Point = Point(t: int, requests: int, allowed: int, denied: int, errors: int, bytesIn: int, bytesOut: int)

  datatype UserAgg = UserAgg(user: string, requests: int, bytesIn: int, bytesOut: int)

  /** The bucket counted from scratch. */
  function NaivePoint(q: Query, es: seq<LogEntry>, b: int): Point
    requires q.bucketSec > 0
  {
    var c := Class(es, BucketKey(q), b);
    Point(b, Total(c, Requests), Total(c, Allowed), Total(c, Denied), Total(c, Errors),
          Total(c, BytesIn) % M64, Total(c, BytesOut) % M64)
  }

  function NaiveUser(q: Query, es: seq<LogEntry>, name: string): UserAgg {
    var c := Class(es, UserKey(q), name);
    UserAgg(name, Total(c, Requests), Total(c, BytesIn) % M64, Total(c, BytesOut) % M64)
  }

  function First(q: Query): int
    requires q.bucketSec > 0
  {
    BucketOf(q, q.since)
  }

  function Last(q: Query): int
    requires q.bucketSec > 0
  {
    BucketOf(q, q.now)
  }

  function PointCount(q: Query): int
    requires q.bucketSec > 0
  {
    if First(q) <= Last(q) then (Last(q) - First(q)) / q.bucketSec + 1 else 0
  }

  /** The buckets of the window in order. */
  ghost predicate Buckets(q: Query, keys: seq<int>)
    requires q.bucketSec > 0
  {
    |keys| == PointCount(q) && forall i :: 0 <= i < |keys| ==> keys[i] == First(q) + i * q.bucketSec
  }

  lemma BucketsDistinct(q: Query, keys: seq<int>)
    requires q.bucketSec > 0 && Buckets(q, keys)
    ensures Distinct(keys)
  {
    forall i, j | 0 <= i < j < |keys| ensures keys[i] != keys[j] {
      MulMono(i + 1, j, q.bucketSec);
      assert (i + 1) * q.bucketSec == i * q.bucketSec + q.bucketSec;
    }
  }

  /** Every moment of the window falls in one of the emitted buckets. */
  lemma WindowCovered(q: Query, keys: seq<int>, nanos: int)
    requires q.bucketSec > 0 && Buckets(q, keys) && q.since <= nanos <= q.now
    ensures BucketOf(q, nanos) in keys
  {
    var bk := q.bucketSec;
    var lo, at, hi := TruncDiv(q.since / NANOS, bk), TruncDiv(nanos / NANOS, bk), TruncDiv(q.now / NANOS, bk);
    TruncDivMono(q.since / NANOS, nanos / NANOS, bk);
    TruncDivMono(nanos / NANOS, q.now / NANOS, bk);
    BucketIndex(lo, at, hi, bk);
    assert keys[at - lo] == BucketOf(q, nanos);
  }

  lemma BucketIndex(lo: int, at: int, hi: int, b: int)
    requires lo <= at <= hi && b > 0
    ensures lo * b <= hi * b && lo * b + (at - lo) * b == at * b
    ensures at - lo <= (hi * b - lo * b) / b
  {
    MulMono(lo, hi, b);
    assert (hi - lo) * b == hi * b - lo * b;
    QuotientAtLeast(hi - lo, b, hi * b - lo * b);
  }

  /** Bucket starts are multiples of the bucket size. */
  lemma BucketsAligned(q: Query, keys: seq<int>, j: nat)
    requires q.bucketSec > 0 && Buckets(q, keys) && j < |keys|
    ensures keys[j] % q.bucketSec == 0
  {
    var lo := TruncDiv(q.since / NANOS, q.bucketSec);
    assert keys[j] == (lo + j) * q.bucketSec;
    MultipleMod(lo + j, q.bucketSec);
  }

  lemma MultipleMod(k: int, b: int)
    requires b > 0
    ensures k * b % b == 0
  {
    var r := k * b % b;
    var d := k - k * b / b;
    assert r == d * b;
    MulCancel(d, 1, b);
    if d < 0 { MulMono(d, -1, b); }
  }

  function Field(p: Point, m: Metric): int {
    match m
    case Requests => p.requests
    case Allowed => p.allowed
    case Denied => p.denied
    case Errors => p.errors
    case BytesIn => p.bytesIn
    case BytesOut => p.bytesOut
  }

  function SumPoints(ps: seq<Point>, m: Metric): int {
    if ps == [] then 0 else SumPoints(ps[..|ps| - 1], m) + Field(ps[|ps| - 1], m)
  }

  ghost predicate NaivePoints(q: Query, es: seq<LogEntry>, ps: seq<Point>)
    requires q.bucketSec > 0
  {
    forall i :: 0 <= i < |ps| ==> ps[i] == NaivePoint(q, es, First(q) + i * q.bucketSec)
  }

  lemma FieldOfNaive(q: Query, es: seq<LogEntry>, b: int, m: Metric)
    requires q.bucketSec > 0
    ensures var total := Total(Class(es, BucketKey(q), b), m);
            Field(NaivePoint(q, es, b), m) == if m.BytesIn? || m.BytesOut? then total % M64 else total
  {
  }

  lemma {:induction false} SumCountsByKeys(f: LogEntry -> Option<int>, es: seq<LogEntry>, ps: seq<Point>, keys: seq<int>, m: Metric)
    requires |ps| == |keys|
    requires forall i :: 0 <= i < |ps| ==> Field(ps[i], m) == Total(Class(es, f, keys[i]), m)
    ensures SumPoints(ps, m) == TotalOverKeys(es, f, keys, m)
  {
    if ps != [] {
      var n := |ps| - 1;
      SumCountsByKeys(f, es, ps[..n], keys[..n], m);
    }
  }

  /** Byte columns lose a whole number of wraps and nothing else. */
  lemma {:induction false} SumBytesByKeys(f: LogEntry -> Option<int>, es: seq<LogEntry>, ps: seq<Point>, keys: seq<int>, m: Metric)
    returns (wraps: int)
    requires |ps| == |keys|
    requires forall i :: 0 <= i < |ps| ==> Field(ps[i], m) == Total(Class(es, f, keys[i]), m) % M64
    ensures SumPoints(ps, m) == TotalOverKeys(es, f, keys, m) - wraps * M64
  {
    wraps := 0;
    if ps != [] {
      var n := |ps| - 1;
      wraps := SumBytesByKeys(f, es, ps[..n], keys[..n], m);
      wraps := wraps + Total(Class(es, f, keys[n]), m) / M64;
    }
  }

  lemma ChartKeys(q: Query, es: seq<LogEntry>, ps: seq<Point>) returns (keys: seq<int>)
    requires q.bucketSec > 0 && |ps| == PointCount(q) && NaivePoints(q, es, ps)
    ensures Distinct(keys) && |keys| == |ps|
    ensures forall i :: 0 <= i < |ps| ==> ps[i] == NaivePoint(q, es, keys[i])
    ensures forall i :: 0 <= i < |es| && BucketKey(q)(es[i]).Some? ==> BucketKey(q)(es[i]).value in keys
  {
    keys := seq(|ps|, i requires 0 <= i < |ps| => First(q) + i * q.bucketSec);
    BucketsDistinct(q, keys);
    forall i | 0 <= i < |es| && BucketKey(q)(es[i]).Some? ensures BucketKey(q)(es[i]).value in keys {
      WindowCovered(q, keys, When(q, es[i]).value);
    }
  }

  /** The chart loses nothing: its counts add up to those of the entries in the window. */
  lemma ChartConservesCounts(q: Query, es: seq<LogEntry>, ps: seq<Point>, m: Metric)
    requires q.bucketSec > 0 && |ps| == PointCount(q) && NaivePoints(q, es, ps)
    requires !m.BytesIn? && !m.BytesOut?
    ensures SumPoints(ps, m) == Total(Classified(es, BucketKey(q)), m)
  {
    var keys := ChartKeys(q, es, ps);
    TotalsConserved(es, BucketKey(q), keys, m);
    forall i | 0 <= i < |ps| ensures Field(ps[i], m) == Total(Class(es, BucketKey(q), keys[i]), m) {
      FieldOfNaive(q, es, keys[i], m);
    }
    SumCountsByKeys(BucketKey(q), es, ps, keys, m);
  }

  /** And its byte columns add up to the bytes of those entries, up to 64-bit wraps. */
  lemma ChartConservesBytes(q: Query, es: seq<LogEntry>, ps: seq<Point>, m: Metric) returns (wraps: int)
    requires q.bucketSec > 0 && |ps| == PointCount(q) && NaivePoints(q, es, ps)
    requires m.BytesIn? || m.BytesOut?
    ensures SumPoints(ps, m) == Total(Classified(es, BucketKey(q)), m) - wraps * M64
  {
    var keys := ChartKeys(q, es, ps);
    TotalsConserved(es, BucketKey(q), keys, m);
    forall i | 0 <= i < |ps| ensures Field(ps[i], m) == Total(Class(es, BucketKey(q), keys[i]), m) % M64 {
      FieldOfNaive(q, es, keys[i], m);
    }
    wraps := SumBytesByKeys(BucketKey(q), es, ps, keys, m);
  }

  /** Each entry of the window is in the class of exactly one emitted point. */
  lemma EntryInOnePoint(q: Query, es: seq<LogEntry>, ps: seq<Point>, e: LogEntry) returns (i: nat)
    requires q.bucketSec > 0 && |ps| == PointCount(q) && NaivePoints(q, es, ps) && InWindow(q, e)
    ensures i < |ps| && BucketKey(q)(e) == Some(ps[i].t)
    ensures forall j :: 0 <= j < |ps| && BucketKey(q)(e) == Some(ps[j].t) ==> j == i
  {
    var keys := seq(|ps|, k requires 0 <= k < |ps| => First(q) + k * q.bucketSec);
    BucketsDistinct(q, keys);
    WindowCovered(q, keys, When(q, e).value);
    i :| i < |keys| && keys[i] == BucketOf(q, When(q, e).value);
    assert forall j :: 0 <= j < |ps| ==> ps[j].t == keys[j];
  }

  /** What one entry weighs in each column. */
  lemma WeightExact(e: LogEntry)
    ensures var denied, failed := "DENIED" <= e.outcome, "ERROR" <= e.outcome;
            && Weight(e, Requests) == 1 && Weight(e, BytesIn) == e.bytesIn && Weight(e, BytesOut) == e.bytesOut
            && Weight(e, Denied) == (if denied then 1 else 0) && Weight(e, Errors) == (if failed then 1 else 0)
            && Weight(e, Allowed) == (if denied || failed then 0 else 1)
  {
    NotBoth(e.outcome);
  }

  lemma ClassTotal<K>(es: seq<LogEntry>, e: LogEntry, f: LogEntry -> Option<K>, k: K, m: Metric)
    ensures Total(Class(es + [e], f, k), m) == Total(Class(es, f, k), m) + if f(e) == Some(k) then Weight(e, m) else 0
  {
    hide Total, Weight;
    ClassAppend(es, e, f, k);
    TotalAppend(Class(es, f, k), e, m);
  }

  /** One more entry adds one request to the point of its bucket, in the column of its outcome,
      and its bytes. */
  lemma OneMoreEntry(q: Query, es: seq<LogEntry>, e: LogEntry, b: int)
    requires q.bucketSec > 0
    ensures var before, after := NaivePoint(q, es, b), NaivePoint(q, es + [e], b);
            var counts := BucketKey(q)(e) == Some(b);
            var denied, failed := "DENIED" <= e.outcome, "ERROR" <= e.outcome;
            && after.requests == before.requests + (if counts then 1 else 0)
            && after.denied == before.denied + (if counts && denied then 1 else 0)
            && after.errors == before.errors + (if counts && failed then 1 else 0)
            && after.allowed == before.allowed + (if counts && !denied && !failed then 1 else 0)
            && after.bytesIn == (before.bytesIn + (if counts then e.bytesIn else 0)) % 0x1_0000_0000_0000_0000
            && after.bytesOut == (before.bytesOut + (if counts then e.bytesOut else 0)) % 0x1_0000_0000_0000_0000
  {
    hide Total, Weight, Class, BucketKey;
    var f := BucketKey(q);
    forall m ensures Total(Class(es + [e], f, b), m) == Total(Class(es, f, b), m) + if f(e) == Some(b) then Weight(e, m) else 0 {
      ClassTotal(es, e, f, b, m);
    }
    WeightExact(e);
    AddedModulo(Total(Class(es, f, b), BytesIn), if f(e) == Some(b) then e.bytesIn else 0);
    AddedModulo(Total(Class(es, f, b), BytesOut), if f(e) == Some(b) then e.bytesOut else 0);
  }

  lemma NotBoth(outcome: string)
    ensures !("DENIED" <= outcome && "ERROR" <= outcome)
  {
    if "DENIED" <= outcome { assert outcome[0] == 'D'; }
  }

  lemma AddedModulo(a: int, b: int)
    ensures (a + b) % M64 == (a % M64 + b) % M64
  {
    var k := a / M64;
    assert a == k * M64 + a % M64;
    assert a + b == k * M64 + (a % M64 + b);
    ModuloShift(k, a % M64 + b);
  }

  lemma ModuloShift(k: int, x: int)
    ensures (k * M64 + x) % M64 == x % M64
  {
  }

  /** Which bucket: for an entry whose time, the stored timestamp or else the parsed text, is
      inside the window, and which is of the user asked for, the multiple of the bucket size
      at or below that time; for any other entry none. */
  lemma BucketExact(q: Query, e: LogEntry, nanos: int)
    requires q.bucketSec > 0 && nanos >= 0
    requires if e.t != 0 then nanos == e.t * 1_000_000_000 else q.parse(e.time) == Some(nanos)
    ensures var inside := q.since <= nanos <= q.now && (q.user == "" || ToLower(e.user) == ToLower(q.user));
            var seconds := nanos / 1_000_000_000;
            match BucketKey(q)(e)
            case None => !inside
            case Some(b) => inside && b <= seconds < b + q.bucketSec && b == seconds / q.bucketSec * q.bucketSec
  {
    var seconds := nanos / 1_000_000_000;
    assert seconds == seconds / q.bucketSec * q.bucketSec + seconds % q.bucketSec;
  }

  /** An entry without a time is in no bucket. */
  lemma UntimedNowhere(q: Query, e: LogEntry)
    requires q.bucketSec > 0 && e.t == 0 && q.parse(e.time).None?
    ensures BucketKey(q)(e) == None && UserKey(q)(e) == None
  {
  }

  lemma PointTimes(q: Query, es: seq<LogEntry>, ps: seq<Point>)
    requires q.bucketSec > 0 && NaivePoints(q, es, ps)
    ensures forall i :: 0 <= i < |ps| ==> ps[i].t == First(q) + i * q.bucketSec
  {
  }

  lemma Floor(x: int, b: int)
    requires b > 0
    ensures x / b * b <= x < x / b * b + b
  {
    assert x == x / b * b + x % b;
  }

  lemma SpanOf(q: Query)
    requires q.bucketSec > 0 && 0 <= q.since <= q.now
    ensures var lo, hi := q.since / NANOS / q.bucketSec, q.now / NANOS / q.bucketSec;
            && First(q) == lo * q.bucketSec && PointCount(q) == hi - lo + 1 >= 1
            && First(q) + (hi - lo) * q.bucketSec == hi * q.bucketSec
  {
    DivMono(q.since, q.now, NANOS);
    QuotientAtLeast(0, NANOS, q.since);
    DivMono(q.since / NANOS, q.now / NANOS, q.bucketSec);
    SpanQuotient(q.since / NANOS / q.bucketSec, q.now / NANOS / q.bucketSec, q.bucketSec);
  }

  /** The chart begins with the bucket of the window's beginning and ends with that of now. */
  lemma ChartSpansWindow(q: Query, es: seq<LogEntry>, ps: seq<Point>)
    requires q.bucketSec > 0 && 0 <= q.since <= q.now && |ps| == PointCount(q) && NaivePoints(q, es, ps)
    ensures var since, now, n := q.since / 1_000_000_000, q.now / 1_000_000_000, |ps|;
            && n > 0 && ps[0].t <= since < ps[0].t + q.bucketSec && ps[n - 1].t <= now < ps[n - 1].t + q.bucketSec
            && forall i :: 0 < i < n ==> ps[i].t == ps[i - 1].t + q.bucketSec
  {
    hide First, PointCount, NaivePoints;
    var bk := q.bucketSec;
    SpanOf(q);
    PointTimes(q, es, ps);
    Floor(q.since / NANOS, bk);
    Floor(q.now / NANOS, bk);
    forall i | 0 < i < |ps| ensures ps[i].t == ps[i - 1].t + bk { assert i * bk == (i - 1) * bk + bk; }
  }

  lemma SpanQuotient(lo: int, hi: int, b: int)
    requires b > 0 && lo <= hi
    ensures lo * b <= hi * b && (hi * b - lo * b) / b == hi - lo && lo * b + (hi - lo) * b == hi * b
  {
    BucketIndex(lo, hi, hi, b);
    MultipleMod(hi - lo, b);
    assert hi * b - lo * b == (hi - lo) * b;
    var d := hi * b - lo * b;
    assert d == d / b * b + d % b;
    MulCancel(d / b, hi - lo + 1, b);
  }

  /** One more entry adds to the totals of its user alone. */
  lemma OneMoreOfUser(q: Query, es: seq<LogEntry>, e: LogEntry, name: string)
    ensures var before, after := NaiveUser(q, es, name), NaiveUser(q, es + [e], name);
            var counts := InWindow(q, e) && e.user == name && name != "";
            && after.user == name && after.requests == before.requests + (if counts then 1 else 0)
            && after.bytesIn == (before.bytesIn + (if counts then e.bytesIn else 0)) % 0x1_0000_0000_0000_0000
            && after.bytesOut == (before.bytesOut + (if counts then e.bytesOut else 0)) % 0x1_0000_0000_0000_0000
  {
    hide Total, Weight, Class, InWindow;
    var f := UserKey(q);
    forall m ensures Total(Class(es + [e], f, name), m) == Total(Class(es, f, name), m) + if f(e) == Some(name) then Weight(e, m) else 0 {
      ClassTotal(es, e, f, name, m);
    }
    WeightExact(e);
    AddedModulo(Total(Class(es, f, name), BytesIn), if f(e) == Some(name) then e.bytesIn else 0);
    AddedModulo(Total(Class(es, f, name), BytesOut), if f(e) == Some(name) then e.bytesOut else 0);
  }

  // ---- the ranking ----

  predicate Outranks(a: UserAgg, b: UserAgg) {
    if a.bytesOut != b.bytesOut then a.bytesOut > b.bytesOut else a.requests > b.requests
  }

  ghost predicate Ranked(r: seq<UserAgg>) {
    forall i, j :: 0 <= i < j < |r| ==> !Outranks(r[j], r[i])
  }

  /** The users with traffic in the window, each once, with the totals counted from scratch. */
  ghost predicate Aggregates(q: Query, es: seq<LogEntry>, r: seq<UserAgg>) {
    && (forall i :: 0 <= i < |r| ==> r[i] == NaiveUser(q, es, r[i].user) && Class(es, UserKey(q), r[i].user) != [])
    && (forall i, j :: 0 <= i < j < |r| ==> r[i].user != r[j].user)
    && (forall i :: 0 <= i < |es| && UserKey(q)(es[i]).Some? ==> exists j :: 0 <= j < |r| && r[j].user == es[i].user)
  }

  function Insert(r: seq<UserAgg>, a: UserAgg): seq<UserAgg> {
    if r == [] || Outranks(a, r[0]) then [a] + r else [r[0]] + Insert(r[1..], a)
  }

  lemma {:induction false} InsertPermutes(r: seq<UserAgg>, a: UserAgg)
    ensures multiset(Insert(r, a)) == multiset(r) + multiset{a}
    ensures forall x :: x in Insert(r, a) ==> x == a || x in r
  {
    if r != [] {
      assert r == [r[0]] + r[1..];
      InsertPermutes(r[1..], a);
    }
  }

  lemma {:induction false} InsertRanked(r: seq<UserAgg>, a: UserAgg)
    requires Ranked(r)
    ensures Ranked(Insert(r, a))
  {
    if r != [] && !Outranks(a, r[0]) {
      InsertRanked(r[1..], a);
      InsertPermutes(r[1..], a);
      var s := Insert(r, a);
      forall j | 0 < j < |s| ensures !Outranks(s[j], s[0]) {
        assert s[j] in Insert(r[1..], a);
      }
    }
  }

  /** Stands for the library sort: callers know only that the result is a ranking of the
      same elements, in whatever order it leaves ties. */
  method SortUsers(r: seq<UserAgg>) returns (s: seq<UserAgg>)
    ensures Ranked(s) && multiset(s) == multiset(r)
  {
    s := [];
    for i := 0 to |r|
      invariant Ranked(s) && multiset(s) == multiset(r[..i])
    {
      InsertRanked(s, r[i]);
      InsertPermutes(s, r[i]);
      s := Insert(s, r[i]);
      assert r[..i + 1] == r[..i] + [r[i]];
    }
    assert r[..|r|] == r;
  }

  lemma Reordered(q: Query, es: seq<LogEntry>, r: seq<UserAgg>, s: seq<UserAgg>)
    requires Aggregates(q, es, r) && multiset(s) == multiset(r)
    ensures Aggregates(q, es, s)
  {
    forall i | 0 <= i < |s| ensures s[i] in r { assert s[i] in multiset(s); }
    forall i | 0 <= i < |r| ensures r[i] in s { assert r[i] in multiset(r); }
    forall i, j | 0 <= i < j < |s| ensures s[i].user != s[j].user {
      if s[i].user == s[j].user {
        var k :| 0 <= k < |r| && r[k] == s[i];
        assert s[j] in r;
        assert s[i] == s[j];
        Once(r, k);
        Twice(s, i, j);
      }
    }
  }

  lemma Twice(s: seq<UserAgg>, i: nat, j: nat)
    requires i < j < |s| && s[i] == s[j]
    ensures multiset(s)[s[i]] >= 2
  {
    assert s == s[..i] + [s[i]] + s[i + 1..j] + [s[j]] + s[j + 1..];
  }

  lemma Once(r: seq<UserAgg>, k: nat)
    requires k < |r| && forall i, j :: 0 <= i < j < |r| ==> r[i].user != r[j].user
    ensures multiset(r)[r[k]] == 1
  {
    assert r == r[..k] + [r[k]] + r[k + 1..];
    assert r[k] !in r[..k] && r[k] !in r[k + 1..];
  }

  lemma {:induction false} ClassMember<K>(es: seq<LogEntry>, f: LogEntry -> Option<K>, k: K) returns (i: nat)
    requires Class(es, f, k) != []
    ensures i < |es| && f(es[i]) == Some(k)
  {
    i := |es| - 1;
    if f(es[i]) != Some(k) { i := ClassMember(es[..i], f, k); }
  }

  /** The list that is shown: ten users or all there are, and no user of the window who is
      not on it outranks one who is. */
  lemma NobodyBetterOmitted(q: Query, es: seq<LogEntry>, ranked: seq<UserAgg>, top: seq<UserAgg>, name: string)
    requires Ranked(ranked) && Aggregates(q, es, ranked)
    requires top == ranked[..if |ranked| < TOP_USERS then |ranked| else TOP_USERS]
    requires Class(es, UserKey(q), name) != [] && forall i :: 0 <= i < |top| ==> top[i].user != name
    ensures |top| == 10
    ensures forall i :: 0 <= i < |top| ==> !Outranks(NaiveUser(q, es, name), top[i])
    ensures forall i :: 0 <= i < |top| ==>
              NaiveUser(q, es, name).bytesOut < top[i].bytesOut
              || (NaiveUser(q, es, name).bytesOut == top[i].bytesOut && NaiveUser(q, es, name).requests <= top[i].requests)
  {
    var at := ClassMember(es, UserKey(q), name);
    var j :| 0 <= j < |ranked| && ranked[j].user == es[at].user;
    assert forall i :: 0 <= i < |top| ==> ranked[i] == top[i];
    assert ranked[j] == NaiveUser(q, es, name);
  }

  function SumUsers(r: seq<UserAgg>): int {
    if r == [] then 0 else SumUsers(r[..|r| - 1]) + r[|r| - 1].requests
  }

  lemma {:induction false} SumUsersByKeys(q: Query, es: seq<LogEntry>, r: seq<UserAgg>, names: seq<string>)
    requires |names| == |r| && forall i :: 0 <= i < |r| ==> names[i] == r[i].user && r[i] == NaiveUser(q, es, r[i].user)
    ensures SumUsers(r) == TotalOverKeys(es, UserKey(q), names, Requests)
  {
    if r != [] { SumUsersByKeys(q, es, r[..|r| - 1], names[..|names| - 1]); }
  }

  /** Before truncation the ranking accounts for every named entry of the window. */
  lemma RankingConserves(q: Query, es: seq<LogEntry>, r: seq<UserAgg>)
    requires Aggregates(q, es, r)
    ensures SumUsers(r) == |Classified(es, UserKey(q))|
  {
    var names := seq(|r|, i requires 0 <= i < |r| => r[i].user);
    forall i | 0 <= i < |es| && UserKey(q)(es[i]).Some? ensures UserKey(q)(es[i]).value in names {
      var j :| 0 <= j < |r| && r[j].user == es[i].user;
      assert names[j] == es[i].user;
    }
    SumUsersByKeys(q, es, r, names);
    TotalsConserved(es, UserKey(q), names, Requests);
    OutcomesPartition(Classified(es, UserKey(q)));
  }

  // ---- the one-pass computation ----

  datatype Acc = Acc(requests: int, allowed: int, denied: int, errors: int, bin: int, bout: int)

  const NO_TRAFFIC := Acc(0, 0, 0, 0, 0, 0)

  function AccOf(es: seq<LogEntry>): Acc {
    Acc(Total(es, Requests), Total(es, Allowed), Total(es, Denied), Total(es, Errors),
        Total(es, BytesIn) % M64, Total(es, BytesOut) % M64)
  }

  /** The body of the loop for one accumulator. */
  method Accumulate(a: Acc, e: LogEntry, ghost es: seq<LogEntry>) returns (r: Acc)
    requires a == AccOf(es)
    ensures r == AccOf(es + [e])
  {
    forall m ensures Total(es + [e], m) == Total(es, m) + Weight(e, m) { TotalAppend(es, e, m); }
    r := a.(requests := a.requests + 1);
    if HasPrefix(e.outcome, "DENIED") {
      r := r.(denied := r.denied + 1);
    } else if HasPrefix(e.outcome, "ERROR") {
      r := r.(errors := r.errors + 1);
    } else {
      r := r.(allowed := r.allowed + 1);
    }
    r := r.(bin := (r.bin + e.bytesIn) % M64, bout := (r.bout + e.bytesOut) % M64);
  }

  /** Exactly the keys in use are present, each with the totals of its class. */
  ghost predicate Tallied<K(!new)>(m: map<K, Acc>, es: seq<LogEntry>, f: LogEntry -> Option<K>) {
    forall k :: if k in m then m[k] == AccOf(Class(es, f, k)) && Class(es, f, k) != [] else Class(es, f, k) == []
  }

  lemma TallyEntry<K(!new)>(m: map<K, Acc>, m': map<K, Acc>, es: seq<LogEntry>, e: LogEntry, f: LogEntry -> Option<K>)
    requires Tallied(m, es, f)
    requires match f(e)
             case None => m' == m
             case Some(k) => m' == m[k := AccOf(Class(es, f, k) + [e])]
    ensures Tallied(m', es + [e], f)
  {
    forall k ensures if k in m' then m'[k] == AccOf(Class(es + [e], f, k)) && Class(es + [e], f, k) != []
                     else Class(es + [e], f, k) == []
    {
      ClassAppend(es, e, f, k);
    }
  }

  /** One more entry under its key. (A user's accumulator also carries outcome counts,
      which nothing reads.) */
  method AddTo<K(==, !new)>(m: map<K, Acc>, k: K, e: LogEntry, ghost es: seq<LogEntry>, ghost f: LogEntry -> Option<K>)
    returns (m': map<K, Acc>)
    requires Tallied(m, es, f) && f(e) == Some(k)
    ensures Tallied(m', es + [e], f)
  {
    var a := Accumulate(if k in m then m[k] else NO_TRAFFIC, e, Class(es, f, k));
    m' := m[k := a];
    TallyEntry(m, m', es, e, f);
  }

  /** The loop body: one more entry into the two maps. */
  method CollectEntry(e: LogEntry, q: Query, buckets0: map<int, Acc>, users0: map<string, Acc>, ghost seen: seq<LogEntry>)
    returns (buckets: map<int, Acc>, users: map<string, Acc>)
    requires q.bucketSec > 0
    requires Tallied(buckets0, seen, BucketKey(q)) && Tallied(users0, seen, UserKey(q))
    ensures Tallied(buckets, seen + [e], BucketKey(q)) && Tallied(users, seen + [e], UserKey(q))
  {
    buckets, users := buckets0, users0;
    var t := if e.t != 0 then Some(e.t * NANOS) else q.parse(e.time);
    if t.None? || t.value < q.since || t.value > q.now || (q.user != "" && !EqualFold(e.user, q.user)) {
      TallyEntry(buckets0, buckets, seen, e, BucketKey(q));
      TallyEntry(users0, users, seen, e, UserKey(q));
      return;
    }
    var b := TruncDiv(t.value / NANOS, q.bucketSec) * q.bucketSec;
    buckets := AddTo(buckets, b, e, seen, BucketKey(q));
    if e.user != "" {
      users := AddTo(users, e.user, e, seen, UserKey(q));
    } else {
      TallyEntry(users0, users, seen, e, UserKey(q));
    }
  }

  method Collect(entries: seq<LogEntry>, q: Query) returns (buckets: map<int, Acc>, users: map<string, Acc>)
    requires q.bucketSec > 0
    ensures Tallied(buckets, entries, BucketKey(q)) && Tallied(users, entries, UserKey(q))
  {
    buckets, users := map[], map[];
    for i := 0 to |entries|
      invariant Tallied(buckets, entries[..i], BucketKey(q)) && Tallied(users, entries[..i], UserKey(q))
    {
      assert entries[..i + 1] == entries[..i] + [entries[i]];
      buckets, users := CollectEntry(entries[i], q, buckets, users, entries[..i]);
    }
    assert entries[..|entries|] == entries;
  }

  method Chart(buckets: map<int, Acc>, q: Query, ghost entries: seq<LogEntry>) returns (points: seq<Point>)
    requires q.bucketSec > 0 && Tallied(buckets, entries, BucketKey(q))
    ensures |points| == PointCount(q) && NaivePoints(q, entries, points)
  {
    points := [];
    var first := TruncDiv(q.since / NANOS, q.bucketSec) * q.bucketSec;
    var last := TruncDiv(q.now / NANOS, q.bucketSec) * q.bucketSec;
    var b := first;
    while b <= last
      invariant b == first + |points| * q.bucketSec
      invariant |points| > 0 ==> b - q.bucketSec <= last
      invariant NaivePoints(q, entries, points)
      decreases last - b
    {
      var p := Point(b, 0, 0, 0, 0, 0, 0);
      if b in buckets {
        var a := buckets[b];
        p := Point(b, a.requests, a.requests - a.denied - a.errors, a.denied, a.errors, a.bin, a.bout);
        OutcomesPartition(Class(entries, BucketKey(q), b));
        if p.allowed < 0 {
          p := p.(allowed := 0);
        }
      }
      assert p == NaivePoint(q, entries, b);
      assert (|points| + 1) * q.bucketSec == |points| * q.bucketSec + q.bucketSec;
      points := points + [p];
      b := b + q.bucketSec;
    }
    CountIsQuotient(q, |points|);
  }

  lemma CountIsQuotient(q: Query, n: nat)
    requires q.bucketSec > 0 && Last(q) < First(q) + n * q.bucketSec
    requires n > 0 ==> First(q) + n * q.bucketSec - q.bucketSec <= Last(q)
    ensures n == PointCount(q)
  {
    var d, bk := Last(q) - First(q), q.bucketSec;
    if n > 0 {
      assert (n - 1) * bk == n * bk - bk;
      MulMono(0, n - 1, bk);
      QuotientAtLeast(n - 1, bk, d);
      assert d == d / bk * bk + d % bk;
      MulCancel(d / bk, n, bk);
    }
  }

  /** The users met so far, each once and with its own totals. */
  ghost predicate Listing(q: Query, entries: seq<LogEntry>, met: set<string>, top: seq<UserAgg>) {
    && (forall i :: 0 <= i < |top| ==> top[i].user in met && top[i] == NaiveUser(q, entries, top[i].user))
    && (forall i, j :: 0 <= i < j < |top| ==> top[i].user != top[j].user)
    && forall u :: u in met ==> NaiveUser(q, entries, u) in top
  }

  lemma ListingGrows(q: Query, entries: seq<LogEntry>, met: set<string>, top: seq<UserAgg>, u: string)
    requires Listing(q, entries, met, top) && u !in met
    ensures Listing(q, entries, met + {u}, top + [NaiveUser(q, entries, u)])
  {
    hide NaiveUser;
    var agg := NaiveUser(q, entries, u);
    assert agg.user == u by { NaiveUserName(q, entries, u); }
    assert (top + [agg])[|top|] == agg;
  }

  lemma NaiveUserName(q: Query, entries: seq<LogEntry>, u: string)
    ensures NaiveUser(q, entries, u).user == u
  {
  }

  /** The range over the user map, in whatever order it runs. */
  method ListUsers(users: map<string, Acc>, q: Query, ghost entries: seq<LogEntry>) returns (top: seq<UserAgg>)
    requires Tallied(users, entries, UserKey(q))
    ensures Listing(q, entries, users.Keys, top)
  {
    hide Listing;
    top := [];
    var names := users.Keys;
    assert Listing(q, entries, {}, top) by { NothingListed(q, entries); }
    assert users.Keys - names == {};
    while names != {}
      invariant names <= users.Keys
      invariant Listing(q, entries, users.Keys - names, top)
    {
      var name :| name in names;
      var a := users[name];
      var agg := UserAgg(name, a.requests, a.bin, a.bout);
      assert agg == NaiveUser(q, entries, name);
      ListingGrows(q, entries, users.Keys - names, top, name);
      assert users.Keys - (names - {name}) == users.Keys - names + {name};
      top := top + [agg];
      names := names - {name};
    }
    assert users.Keys - names == users.Keys;
  }

  lemma NothingListed(q: Query, entries: seq<LogEntry>)
    ensures Listing(q, entries, {}, [])
  {
  }

  method Rank(users: map<string, Acc>, q: Query, ghost entries: seq<LogEntry>) returns (ranked: seq<UserAgg>)
    requires Tallied(users, entries, UserKey(q))
    ensures Ranked(ranked) && Aggregates(q, entries, ranked)
  {
    var top := ListUsers(users, q, entries);
    forall i | 0 <= i < |entries| && UserKey(q)(entries[i]).Some?
      ensures exists j :: 0 <= j < |top| && top[j].user == entries[i].user
    {
      InItsClass(entries, i, UserKey(q));
      assert NaiveUser(q, entries, entries[i].user) in top;
    }
    ranked := SortUsers(top);
    Reordered(q, entries, top, ranked);
  }

  lemma {:induction false} InItsClass<K>(es: seq<LogEntry>, i: nat, f: LogEntry -> Option<K>)
    requires i < |es| && f(es[i]).Some?
    ensures Class(es, f, f(es[i]).value) != []
  {
    if i < |es| - 1 { InItsClass(es[..|es| - 1], i, f); }
  }

  /** The one-pass aggregation is the naive one: every bucket of the window in order with
      its own count, and the first ten users of a ranking of all of them. */
  method Timeline(entries: seq<LogEntry>, q: Query) returns (points: seq<Point>, top: seq<UserAgg>, ghost ranked: seq<UserAgg>)
    requires q.bucketSec > 0
    ensures |points| == PointCount(q) && NaivePoints(q, entries, points)
    ensures Ranked(ranked) && Aggregates(q, entries, ranked)
    ensures top == ranked[..if |ranked| < TOP_USERS then |ranked| else TOP_USERS]
  {
    var buckets, users := Collect(entries, q);
    points := Chart(buckets, q, entries);
    top := Rank(users, q, entries);
    ranked := top;
    if |top| > TOP_USERS {
      top := top[..TOP_USERS];
    }
  }
}
