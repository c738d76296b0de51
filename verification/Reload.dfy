/** Reloading the newest lines of the activity file: a backward walk in chunks finds where
    they begin, a hard cap bounds what is read, and the line the cap cuts is dropped. */
module Reload {
  import opened Text
  import opened Sequences
  import opened FileLines

  const CHUNK: nat := 0x10_0000
  const MAX_LINE: nat := 0x10_0000
  const MAX_READ: nat := 0x400_0000

  // ---- where the newest lines begin ----

  /** Right after the k-th newline from the end, or 0 when there are fewer. */
  function WalkBack(c: string, k: nat): (off: nat)
    requires k > 0
    ensures off <= |c|
  {
    if c == "" then 0
    else
      var before := c[..|c| - 1];
      if c[|c| - 1] != NL then WalkBack(before, k)
      else if k == 1 then |c|
      else WalkBack(before, k - 1)
  }

  /** The walk stops after the k-th newline from the end exactly when there are k: what
      follows holds k - 1 complete lines. */
  lemma {:induction false} WalkBackExact(c: string, k: nat)
    requires k > 0
    ensures var off := WalkBack(c, k);
            if |Lines(c)| < k then off == 0
            else off > 0 && c[off - 1] == NL && |Lines(c[off..])| == k - 1
  {
    hide Lines;
    NoLine("");
    if c != "" {
      var before, x := c[..|c| - 1], c[|c| - 1];
      assert c == before + [x];
      OneMoreChar(before, x);
      if x == NL && k == 1 {
        assert c[|c|..] == "";
      } else {
        var k' := if x == NL then k - 1 else k;
        WalkBackExact(before, k');
        var off := WalkBack(before, k');
        assert c[off..] == before[off..] + [x];
        OneMoreChar(before[off..], x);
        if off == 0 { assert before[off..] == before; }
      }
    }
  }

  /** Pass 1 of loadFile, for every chunk size. */
  method FindStart(c: string, max: nat, chunk: nat) returns (off: nat)
    requires chunk > 0
    ensures off == WalkBack(c, max + 1)
  {
    var rem: nat, pos: nat := max + 1, |c|;
    off := 0;
    assert c[..|c|] == c;
    while pos > 0
      invariant pos <= |c|
      invariant if rem == 0 then pos == 0 && off == WalkBack(c, max + 1)
                else off == 0 && WalkBack(c, max + 1) == WalkBack(c[..pos], rem)
    {
      var start := if pos < chunk then 0 else pos - chunk;
      var buf := c[start..pos];
      var i := |buf| - 1;
      while i >= 0
        invariant -1 <= i < |buf|
        invariant rem > 0 && WalkBack(c, max + 1) == WalkBack(c[..start + i + 1], rem)
        invariant buf == c[start..pos] && 0 <= start < pos <= |c| && off == 0
      {
        assert c[..start + i + 1][..start + i] == c[..start + i];
        if buf[i] == NL {
          rem := rem - 1;
          if rem == 0 {
            off := start + i + 1;
            pos := 0;
            break;
          }
        }
        i := i - 1;
      }
      if pos == 0 {
        break;
      }
      pos := start;
    }
  }

  // ---- what is kept ----

  predicate Reasonable(line: string) { 0 < |line| <= MAX_LINE }

  function Good(ls: seq<string>): seq<string> {
    if ls == [] then [] else (if Reasonable(ls[0]) then [ls[0]] else []) + Good(ls[1..])
  }

  lemma GoodFirst(line: string, more: seq<string>)
    ensures Good([line] + more) == (if Reasonable(line) then [line] else []) + Good(more)
  {
    assert ([line] + more)[1..] == more;
  }

  lemma {:induction false} GoodConcat(a: seq<string>, b: seq<string>)
    ensures Good(a + b) == Good(a) + Good(b)
  {
    if a == [] {
      assert a + b == b;
    } else {
      assert (a + b)[1..] == a[1..] + b;
      GoodConcat(a[1..], b);
    }
  }

  lemma GoodTail(a: seq<string>, b: seq<string>)
    requires Tail(a, b)
    ensures Tail(Good(a), Good(b))
  {
    var before := b[..|b| - |a|];
    assert b == before + a;
    GoodConcat(before, a);
  }

  lemma {:induction false} GoodNoMore(a: seq<string>)
    ensures |Good(a)| <= |a|
  {
    if a != [] { GoodNoMore(a[1..]); }
  }

  /** The good lines are those of one byte to one mebibyte. */
  lemma {:induction false} GoodExact(ls: seq<string>, line: string)
    ensures line in Good(ls) <==> line in ls && 1 <= |line| <= 1024 * 1024
  {
    if ls != [] {
      GoodExact(ls[1..], line);
      assert ls == [ls[0]] + ls[1..];
    }
  }

  /** At most 64 MiB are read. */
  lemma ReadInNumbers(c: string, max: nat)
    ensures |c[Offset(c, max)..]| <= 64 * 1024 * 1024
    ensures |c| - WalkBack(c, max + 1) <= 64 * 1024 * 1024 ==> Offset(c, max) == WalkBack(c, max + 1)
  {
  }

  predicate CapBites(c: string, max: nat) { |c| - WalkBack(c, max + 1) > MAX_READ }

  function Offset(c: string, max: nat): (off: nat)
    ensures off <= |c|
  {
    if CapBites(c, max) then |c| - MAX_READ else WalkBack(c, max + 1)
  }

  /** The filter runs before the first line is dropped. */
  function Kept(c: string, max: nat): seq<string> {
    var off := Offset(c, max);
    var lines := Good(Lines(c[off..]));
    LastN(if off > 0 && lines != [] && c[off - 1] != NL then lines[1..] else lines, max)
  }

  /** A cut in the middle of a line. */
  predicate CutsLine(c: string, off: nat)
    requires off <= |c|
  {
    !AtLineStart(c[..off])
  }

  /** The lines of c that lie wholly at or after off. */
  function Inside(c: string, off: nat): seq<string>
    requires off <= |c|
  {
    var w := Lines(c[off..]);
    if CutsLine(c, off) && w != [] then w[1..] else w
  }

  lemma InsideIsTail(c: string, off: nat)
    requires off <= |c|
    ensures Tail(Inside(c, off), Lines(c))
    ensures |Lines(c)| == |Lines(c[..off])| + |Inside(c, off)| + if CutsLine(c, off) && Lines(c[off..]) != [] then 1 else 0
  {
    hide Lines, Rest;
    assert c == c[..off] + c[off..];
    LinesConcat(c[..off], c[off..]);
    if !CutsLine(c, off) { LinesAtBoundary(c[..off], c[off..]); }
  }

  /** When one line too many is lost: the cut line was filtered out as empty or oversized, so
      the drop takes the first good line after it. */
  predicate LosesOne(c: string, off: nat)
    requires off <= |c|
  {
    CutsLine(c, off) && Lines(c[off..]) != [] && !Reasonable(Lines(c[off..])[0]) && Good(Inside(c, off)) != []
  }

  lemma WindowHoldsFew(c: string, max: nat)
    ensures |Lines(c[Offset(c, max)..])| <= max
  {
    hide Lines, Rest;
    var k, off := WalkBack(c, max + 1), Offset(c, max);
    WalkBackExact(c, max + 1);
    if k == 0 { assert c[k..] == c; }
    assert k <= off && c[k..] == c[k..off] + c[off..];
    assert c[k..][off - k..] == c[off..];
    LinesConcat(c[k..off], c[off..]);
  }

  /** What a reload keeps, for every file: the good lines wholly inside the window, but for
      one more when the cut line was already filtered out. The final truncation never acts. */
  lemma KeptExact(c: string, max: nat)
    ensures var off := Offset(c, max);
            && |Good(Inside(c, off))| <= max
            && Kept(c, max) == if LosesOne(c, off) then Good(Inside(c, off))[1..] else Good(Inside(c, off))
  {
    hide Lines, Rest;
    var off := Offset(c, max);
    var w := Lines(c[off..]);
    WindowHoldsFew(c, max);
    GoodNoMore(w);
    GoodNoMore(Inside(c, off));
    if off > 0 { assert c[..off][|c[..off]| - 1] == c[off - 1]; }
    if w != [] { assert Good(w) == (if Reasonable(w[0]) then [w[0]] else []) + Good(w[1..]); }
  }

  /** The kept lines are all the good lines of the window exactly when no extra one is lost. */
  lemma KeptAllIff(c: string, max: nat)
    ensures Kept(c, max) == Good(Inside(c, Offset(c, max))) <==> !LosesOne(c, Offset(c, max))
  {
    KeptExact(c, max);
  }

  /** Never part of a line: what is kept is a suffix of the good lines of the file. */
  lemma KeptIsSuffix(c: string, max: nat)
    ensures Tail(Kept(c, max), Good(Lines(c)))
  {
    var off := Offset(c, max);
    KeptExact(c, max);
    InsideIsTail(c, off);
    GoodTail(Inside(c, off), Lines(c));
    TailTransitive(Kept(c, max), Good(Inside(c, off)), Good(Lines(c)));
  }

  /** Without the cap: exactly the good ones among the newest max lines. */
  lemma KeptWithoutCap(c: string, max: nat)
    requires !CapBites(c, max)
    ensures Kept(c, max) == Good(LastN(Lines(c), max))
  {
    hide Lines, Rest;
    var off := Offset(c, max);
    WalkBackExact(c, max + 1);
    assert AtLineStart(c[..off]);
    KeptExact(c, max);
    InsideIsTail(c, off);
    if off == 0 { assert c[0..] == c; }
  }

  /** A file on which a good line inside the window is lost. */
  lemma ExtraLineLost(max: nat)
    requires max > 1
    ensures var c := seq(MAX_READ - 2, _ => 'x') + [NL] + "g" + [NL];
            && CapBites(c, max) && LosesOne(c, Offset(c, max))
            && Good(Inside(c, Offset(c, max))) == ["g"] && Kept(c, max) == []
  {
    hide Lines, Terminated;
    var x := seq(MAX_READ - 2, _ => 'x');
    var c := x + [NL] + "g" + [NL];
    TwoLines(x, "g");
    WalkBackExact(c, max + 1);
    assert Offset(c, max) == 1 && c[0] == 'x' && c[..1] == "x";
    assert c[1..] == x[1..] + [NL] + "g" + [NL];
    TwoLines(x[1..], "g");
    assert [x[1..], "g"][1..] == ["g"] && Good(["g"][1..]) == [];
    KeptExact(c, max);
  }

  lemma TwoLines(x: string, y: string)
    requires NL !in x && NL !in y
    ensures Lines(x + [NL] + y + [NL]) == [x, y]
  {
    var ls := [x, y];
    assert ls[1..] == [y] && Terminated(ls[1..][1..]) == "";
    assert Terminated(ls) == x + [NL] + (y + [NL] + "") == x + [NL] + y + [NL];
    LinesOfTerminated(ls);
  }

  /** The loop over the bytes read. */
  method GoodLines(tail: string) returns (lines: seq<string>)
    ensures lines == Good(Lines(tail))
  {
    hide Lines, Good;
    lines := [];
    var rest := tail;
    while |rest| > 0
      invariant lines + Good(Lines(rest)) == Good(Lines(tail))
      decreases |rest|
    {
      var i := IndexOf(rest, NL);
      if i < 0 {
        break;
      }
      FirstLine(rest);
      var line := rest[..i];
      GoodFirst(line, Lines(rest[i + 1..]));
      if |line| > 0 && |line| <= MAX_LINE {
        lines := lines + [line];
      }
      rest := rest[i + 1..];
    }
    NoLine(rest);
    GoodNone();
  }

  lemma GoodNone()
    ensures Good([]) == []
  {
  }

  /** Pass 2 of loadFile: the window's lines, filtered, the first dropped, the rest cut to max. */
  method ReadWindow(c: string, max: nat) returns (lines: seq<string>)
    ensures lines == Kept(c, max)
  {
    hide Lines, Good, WalkBack;
    var off := FindStart(c, max, CHUNK);
    if |c| - off > MAX_READ {
      off := |c| - MAX_READ;
    }
    lines := GoodLines(c[off..]);
    if off > 0 && |lines| > 0 {
      if c[off - 1] != NL {
        lines := lines[1..];
      }
    }
    if |lines| > max {
      lines := lines[|lines| - max..];
    }
  }
}
