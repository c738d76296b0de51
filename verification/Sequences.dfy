/** Suffixes, filters and reversals of sequences. */
module Sequences {
  import opened Wrappers

  /** a is a suffix of b. */
  ghost predicate Tail<T>(a: seq<T>, b: seq<T>) { |a| <= |b| && b[|b| - |a|..] == a }

  /** The last n elements, or all of them. */
  function LastN<T>(s: seq<T>, n: nat): seq<T> { if |s| > n then s[|s| - n..] else s }

  lemma TailTransitive<T>(a: seq<T>, b: seq<T>, c: seq<T>)
    requires Tail(a, b) && Tail(b, c)
    ensures Tail(a, c)
  {
    assert c[|c| - |b|..][|b| - |a|..] == c[|c| - |a|..];
  }

  lemma TailExtends<T>(a: seq<T>, b: seq<T>, c: seq<T>)
    requires Tail(a, b)
    ensures Tail(a + c, b + c)
  {
    assert (b + c)[|b| - |a|..] == b[|b| - |a|..] + c;
  }

  lemma DropIsTail<T>(s: seq<T>, k: nat)
    requires k <= |s|
    ensures Tail(s[k..], s)
  {
  }

  lemma WholeIsTail<T>(s: seq<T>)
    ensures Tail(s, s)
  {
  }

  lemma NothingIsTail<T>(s: seq<T>)
    ensures Tail([], s)
  {
  }

  lemma LastNExtends<T>(s: seq<T>, c: seq<T>, n: nat)
    ensures LastN(LastN(s, n) + c, n) == LastN(s + c, n)
  {
  }

  function AsSeq<T>(o: Option<T>): seq<T> { if o.Some? then [o.value] else [] }

  /** The elements that f maps to a value, mapped. */
  function Collect<A, B>(f: A -> Option<B>, s: seq<A>): seq<B> {
    if s == [] then [] else AsSeq(f(s[0])) + Collect(f, s[1..])
  }

  lemma Associative<T>(a: seq<T>, b: seq<T>, c: seq<T>)
    ensures a + b + c == a + (b + c)
  {
  }

  lemma CollectFirst<A, B>(f: A -> Option<B>, x: A, s: seq<A>)
    ensures Collect(f, [x] + s) == AsSeq(f(x)) + Collect(f, s)
  {
    assert ([x] + s)[1..] == s;
  }

  lemma {:induction false} CollectConcat<A, B>(f: A -> Option<B>, a: seq<A>, b: seq<A>)
    ensures Collect(f, a + b) == Collect(f, a) + Collect(f, b)
  {
    if a == [] {
      assert a + b == b;
    } else {
      hide Collect, AsSeq;
      var x, more := a[0], a[1..];
      assert a == [x] + more;
      CollectFirst(f, x, more);
      CollectFirst(f, x, more + b);
      Associative([x], more, b);
      CollectConcat(f, more, b);
      Associative(AsSeq(f(x)), Collect(f, more), Collect(f, b));
    }
  }

  lemma CollectTail<A, B>(f: A -> Option<B>, a: seq<A>, b: seq<A>)
    requires Tail(a, b)
    ensures Tail(Collect(f, a), Collect(f, b))
  {
    var before := b[..|b| - |a|];
    assert b == before + a;
    CollectConcat(f, before, a);
  }

  function Reversed<T>(s: seq<T>): seq<T> { if s == [] then [] else Reversed(s[1..]) + [s[0]] }

  lemma {:induction false} ReversedConcat<T>(a: seq<T>, b: seq<T>)
    ensures Reversed(a + b) == Reversed(b) + Reversed(a)
  {
    if a == [] {
      assert a + b == b;
    } else {
      assert (a + b)[1..] == a[1..] + b;
      ReversedConcat(a[1..], b);
    }
  }

  /** Reversing turns the positions around. */
  lemma {:induction false} ReversedOrder<T>(s: seq<T>)
    ensures |Reversed(s)| == |s| && forall i :: 0 <= i < |s| ==> Reversed(s)[i] == s[|s| - 1 - i]
  {
    if s != [] {
      ReversedOrder(s[1..]);
      var r := Reversed(s[1..]);
      forall i | 0 <= i < |s| ensures Reversed(s)[i] == s[|s| - 1 - i] {
        if i < |r| { assert Reversed(s)[i] == r[i] == s[1..][|r| - 1 - i]; }
      }
    }
  }

  /** The newest n values of a list that grows at its end, newest first: how a backward
      loop with a limit collects them. */
  function Newest<A, B>(f: A -> Option<B>, s: seq<A>, n: nat): seq<B>
    decreases |s|
  {
    if s == [] || n == 0 then []
    else
      var before, last := s[..|s| - 1], f(s[|s| - 1]);
      if last.Some? then [last.value] + Newest(f, before, n - 1) else Newest(f, before, n)
  }

  lemma NewestStep<A, B>(f: A -> Option<B>, s: seq<A>, i: nat, n: nat)
    requires i < |s| && n > 0
    ensures Newest(f, s[..i + 1], n)
            == if f(s[i]).Some? then [f(s[i]).value] + Newest(f, s[..i], n - 1) else Newest(f, s[..i], n)
  {
    assert s[..i + 1][..i] == s[..i];
  }

  lemma NewestDone<A, B>(f: A -> Option<B>, s: seq<A>, n: nat)
    requires s == [] || n == 0
    ensures Newest(f, s, n) == []
  {
  }

  /** That is the end of the collected list, reversed. */
  lemma {:induction false} NewestIsReversedEnd<A, B>(f: A -> Option<B>, s: seq<A>, n: nat)
    ensures Newest(f, s, n) == Reversed(LastN(Collect(f, s), n))
    decreases |s|
  {
    if s != [] && n > 0 {
      var before, x := s[..|s| - 1], s[|s| - 1];
      var c := Collect(f, before);
      assert s == before + [x];
      CollectConcat(f, before, [x]);
      CollectFirst(f, x, []);
      assert [x] + [] == [x];
      if f(x).Some? {
        NewestIsReversedEnd(f, before, n - 1);
        assert Collect(f, s) == c + [f(x).value];
        NewestGrows(c, f(x).value, n);
      } else {
        NewestIsReversedEnd(f, before, n);
        assert Collect(f, s) == c;
      }
    }
  }

  lemma NewestGrows<T>(c: seq<T>, v: T, n: nat)
    requires n > 0
    ensures Reversed(LastN(c + [v], n)) == [v] + Reversed(LastN(c, n - 1))
  {
    assert LastN(c + [v], n) == LastN(c, n - 1) + [v];
    ReversedConcat(LastN(c, n - 1), [v]);
    assert Reversed([v]) == [v];
  }
}
