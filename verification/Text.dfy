/** Go's strings functions on ASCII text. */
module Text {
  function LowerChar(c: char): char {
    if 'A' <= c <= 'Z' then (c as int + 32) as char else c
  }

  function ToLower(s: string): (r: string)
    ensures |r| == |s|
    ensures forall i :: 0 <= i < |s| ==> r[i] == LowerChar(s[i])
  {
    seq(|s|, i requires 0 <= i < |s| => LowerChar(s[i]))
  }

  predicate EqualFold(a: string, b: string) { ToLower(a) == ToLower(b) }

  predicate IsSpace(c: char) { c == ' ' || '\t' <= c <= '\r' || c == '\U{85}' || c == '\U{A0}' }

  function TrimLeft(s: string): (r: string)
    ensures |r| <= |s| && (r != [] ==> !IsSpace(r[0]))
  {
    if s != [] && IsSpace(s[0]) then TrimLeft(s[1..]) else s
  }

  function TrimRight(s: string): (r: string)
    ensures |r| <= |s| && r <= s && (r != [] ==> !IsSpace(r[|r| - 1]))
  {
    if s != [] && IsSpace(s[|s| - 1]) then TrimRight(s[..|s| - 1]) else s
  }

  function TrimSpace(s: string): string { TrimRight(TrimLeft(s)) }

  /** A text that neither begins nor ends with a space. */
  predicate Trimmed(s: string) { s != [] ==> !IsSpace(s[0]) && !IsSpace(s[|s| - 1]) }

  lemma TrimSpaceTrims(s: string)
    ensures Trimmed(TrimSpace(s))
    ensures Trimmed(s) ==> TrimSpace(s) == s
  {
  }

  /** Texts are alike exactly when they differ at most in the case of letters. */
  lemma FoldExact(a: string, b: string)
    ensures EqualFold(a, b) <==>
              |a| == |b| && forall i :: 0 <= i < |a| ==>
                a[i] == b[i] || ('A' <= a[i] <= 'Z' && b[i] as int == a[i] as int + 32)
                || ('A' <= b[i] <= 'Z' && a[i] as int == b[i] as int + 32)
  {
    var x, y := ToLower(a), ToLower(b);
    if |a| == |b| && forall i :: 0 <= i < |a| ==> LowerChar(a[i]) == LowerChar(b[i]) { assert x == y; }
    if x == y { assert forall i :: 0 <= i < |a| ==> x[i] == LowerChar(a[i]) && x[i] == LowerChar(b[i]); }
  }

  /** Blanks, tabs and line ends. */
  predicate Blank(s: string) { forall i :: 0 <= i < |s| ==> s[i] == ' ' || s[i] == '\t' || s[i] == '\n' || s[i] == '\r' }

  /** Trimming takes away exactly the blank text around a text that begins and ends with
      visible characters. */
  lemma {:induction false} TrimExact(a: string, s: string, b: string)
    requires Blank(a) && Blank(b) && s != "" && '!' <= s[0] <= '~' && '!' <= s[|s| - 1] <= '~'
    ensures TrimSpace(a + s + b) == s
    decreases |a|
  {
    if a == "" {
      assert a + s + b == s + b;
      TrimEnd(s, b);
    } else {
      TrimExact(a[1..], s, b);
      assert (a + s + b)[1..] == a[1..] + s + b;
    }
  }

  lemma {:induction false} TrimEnd(s: string, b: string)
    requires Blank(b) && s != "" && '!' <= s[0] <= '~' && '!' <= s[|s| - 1] <= '~'
    ensures TrimLeft(s + b) == s + b && TrimRight(s + b) == s
    decreases |b|
  {
    if b == "" {
      assert s + b == s;
    } else {
      var init := b[..|b| - 1];
      TrimEnd(s, init);
      assert (s + b)[..|s + b| - 1] == s + init;
    }
  }

  predicate HasPrefix(s: string, p: string) { p <= s }

  predicate Contains(s: string, p: string) { exists i :: 0 <= i <= |s| && HasPrefix(s[i..], p) }

  predicate HasSuffix(s: string, p: string) { |p| <= |s| && s[|s| - |p|..] == p }

  /** The first position of c, or -1. */
  function IndexOf(s: string, c: char): (i: int)
    ensures -1 <= i < |s|
    ensures i >= 0 ==> s[i] == c && c !in s[..i]
    ensures i < 0 <==> c !in s
  {
    if s == [] then -1
    else if s[0] == c then 0
    else var i := IndexOf(s[1..], c); if i < 0 then -1 else i + 1
  }

  /** The last position of c, or -1. */
  function LastIndexOf(s: string, c: char): (i: int)
    ensures -1 <= i < |s|
    ensures i >= 0 ==> s[i] == c && c !in s[i + 1..]
    ensures i < 0 <==> c !in s
  {
    if s == [] then -1
    else if s[|s| - 1] == c then |s| - 1
    else
      var i := LastIndexOf(s[..|s| - 1], c);
      assert s == s[..|s| - 1] + [s[|s| - 1]];
      assert i >= 0 ==> s[i + 1..] == s[..|s| - 1][i + 1..] + [s[|s| - 1]];
      i
  }

  lemma FirstOf(s: string, i: nat, c: char)
    requires i < |s| && s[i] == c && c !in s[..i]
    ensures IndexOf(s, c) == i
  {
  }

  lemma LastOf(s: string, i: nat, c: char)
    requires i < |s| && s[i] == c && c !in s[i + 1..]
    ensures LastIndexOf(s, c) == i
  {
  }

  // ---- splitting ----

  /** strings.Split at one character. */
  function Split(s: string, c: char): (r: seq<string>)
    ensures r != []
  {
    var i := IndexOf(s, c);
    if i < 0 then [s] else [s[..i]] + Split(s[i + 1..], c)
  }

  function Join(ps: seq<string>, c: char): string
    requires ps != []
  {
    if |ps| == 1 then ps[0] else ps[0] + [c] + Join(ps[1..], c)
  }

  lemma SplitFirst(x: string, y: string, c: char)
    requires c !in x
    ensures Split(x + [c] + y, c) == [x] + Split(y, c)
  {
    var s := x + [c] + y;
    assert s[|x|] == c && s[..|x|] == x && s[|x| + 1..] == y;
    FirstOf(s, |x|, c);
  }

  lemma CutAt(s: string, c: char) returns (x: string, y: string)
    requires c in s
    ensures c !in x && s == x + [c] + y && |y| < |s|
    ensures Split(s, c) == [x] + Split(y, c)
  {
    var i := IndexOf(s, c);
    x, y := s[..i], s[i + 1..];
  }

  lemma Unsplit(s: string, c: char)
    requires c !in s
    ensures Split(s, c) == [s]
  {
  }

  lemma Regroup(x: string, y: string, z: string)
    ensures x + y + z == x + (y + z)
  {
  }

  /** Two lists of pieces with the last of one and the first of the other made one. */
  function Glue(p: seq<string>, q: seq<string>): seq<string>
    requires p != [] && q != []
  {
    p[..|p| - 1] + [p[|p| - 1] + q[0]] + q[1..]
  }

  lemma GlueFirst(x: string, p: seq<string>, q: seq<string>)
    requires p != [] && q != []
    ensures [x] + Glue(p, q) == Glue([x] + p, q)
  {
    var n := |p| - 1;
    assert ([x] + p)[..n + 1] == [x] + p[..n];
  }

  /** The pieces of a concatenation. */
  lemma {:induction false} SplitConcat(a: string, b: string, c: char)
    ensures Split(a + b, c) == Glue(Split(a, c), Split(b, c))
    decreases |a|
  {
    if c in a {
      var x, y := CutAt(a, c);
      SplitConcat(y, b, c);
      Regroup(x + [c], y, b);
      SplitFirst(x, y + b, c);
      GlueFirst(x, Split(y, c), Split(b, c));
    } else {
      Unsplit(a, c);
      if c in b {
        var x, y := CutAt(b, c);
        Regroup(a, x + [c], y);
        Regroup(a, x, [c]);
        SplitFirst(a + x, y, c);
      } else {
        Unsplit(b, c);
        Unsplit(a + b, c);
      }
    }
  }

  lemma GlueBlank(p: seq<string>, q: seq<string>)
    requires p != []
    ensures Glue(p, [""] + q) == p + q
  {
    assert p[|p| - 1] + "" == p[|p| - 1];
  }

  lemma SplitAround(a: string, b: string, c: char)
    ensures Split(a + [c] + b, c) == Split(a, c) + Split(b, c)
  {
    hide Split, Glue;
    Regroup(a, [c], b);
    SplitFirst("", b, c);
    assert [c] + b == "" + [c] + b;
    SplitConcat(a, [c] + b, c);
    GlueBlank(Split(a, c), Split(b, c));
  }

  lemma JoinFirst(x: string, ps: seq<string>, c: char)
    requires ps != []
    ensures Join([x] + ps, c) == x + [c] + Join(ps, c)
  {
    assert ([x] + ps)[1..] == ps;
  }

  lemma {:induction false} JoinOfSplit(s: string, c: char)
    ensures Join(Split(s, c), c) == s
    decreases |s|
  {
    if c in s {
      var x, y := CutAt(s, c);
      JoinOfSplit(y, c);
      JoinFirst(x, Split(y, c), c);
    }
  }

  lemma {:induction false} JoinConcat(p: seq<string>, q: seq<string>, c: char)
    requires p != [] && q != []
    ensures Join(p + q, c) == Join(p, c) + [c] + Join(q, c)
  {
    if |p| == 1 {
      assert p == [p[0]];
      JoinFirst(p[0], q, c);
    } else {
      var x, more := p[0], p[1..];
      assert p == [x] + more && p + q == [x] + (more + q);
      JoinConcat(more, q, c);
      JoinFirst(x, more + q, c);
      Regroup(x + [c], Join(more, c), [c] + Join(q, c));
      Regroup(Join(more, c), [c], Join(q, c));
      Regroup(x + [c] + Join(more, c), [c], Join(q, c));
    }
  }
}
