/** The lines of a file, and the lines of any suffix of it. A file is its bytes. */
module FileLines {
  import opened Text
  import opened Sequences

  const NL: char := '\n'

  function Init(p: seq<string>): seq<string>
    requires p != []
  {
    p[..|p| - 1]
  }

  function Last(p: seq<string>): string
    requires p != []
  {
    p[|p| - 1]
  }

  /** The newline-terminated lines; what follows the last newline is no line. */
  function Lines(c: string): seq<string> {
    Init(Split(c, NL))
  }

  function Rest(c: string): string {
    Last(Split(c, NL))
  }

  predicate AtLineStart(before: string) { before == "" || before[|before| - 1] == NL }

  /** What the first list contributes to the completed pieces of the second. */
  function Completed(rest: string, lines: seq<string>): seq<string> {
    if lines == [] then [] else [rest + lines[0]] + lines[1..]
  }

  lemma GlueParts(p: seq<string>, q: seq<string>)
    requires p != [] && q != []
    ensures Init(Glue(p, q)) == Init(p) + Completed(Last(p), Init(q))
    ensures Last(Glue(p, q)) == if |q| == 1 then Last(p) + Last(q) else Last(q)
  {
    if |q| > 1 {
      assert Init(q)[1..] == q[1..|q| - 1];
    }
  }

  /** Cutting a file in two cuts at most one line: the one that the second half completes. */
  lemma LinesConcat(a: string, b: string)
    ensures Lines(a + b) == Lines(a) + Completed(Rest(a), Lines(b))
    ensures Rest(a + b) == if Lines(b) == [] then Rest(a) + Rest(b) else Rest(b)
  {
    hide Split, Glue, Init, Last;
    SplitConcat(a, b, NL);
    GlueParts(Split(a, NL), Split(b, NL));
    InitEmpty(Split(b, NL));
  }

  lemma InitEmpty(p: seq<string>)
    requires p != []
    ensures Init(p) == [] <==> |p| == 1
  {
  }

  lemma {:induction false} LineStartHasNoRest(a: string)
    ensures AtLineStart(a) <==> Rest(a) == ""
  {
    if a != "" {
      var init, x := a[..|a| - 1], [a[|a| - 1]];
      assert a == init + x;
      LinesConcat(init, x);
      OneChar(a[|a| - 1]);
    }
  }

  lemma OneChar(x: char)
    ensures Lines([x]) == if x == NL then [""] else []
    ensures Rest([x]) == if x == NL then "" else [x]
  {
    if x == NL { assert Split([x], NL) == [""] + Split("", NL); }
  }

  lemma OneMoreChar(before: string, x: char)
    ensures |Lines(before + [x])| == |Lines(before)| + if x == NL then 1 else 0
  {
    hide Lines, Rest;
    LinesConcat(before, [x]);
    OneChar(x);
  }

  lemma InitOfFirst(x: string, p: seq<string>)
    requires p != []
    ensures Init([x] + p) == [x] + Init(p) && Init([x] + p)[1..] == Init(p)
  {
  }

  lemma FirstLine(c: string)
    requires NL in c
    ensures var i := IndexOf(c, NL);
            Lines(c) == [c[..i]] + Lines(c[i + 1..]) && Lines(c)[1..] == Lines(c[i + 1..])
  {
    var i := IndexOf(c, NL);
    var p := Split(c[i + 1..], NL);
    assert Split(c, NL) == [c[..i]] + p;
    hide Init, Split;
    InitOfFirst(c[..i], p);
  }

  lemma NoLine(c: string)
    requires NL !in c
    ensures Lines(c) == []
  {
  }

  /** A cut at the start of a line cuts none. */
  lemma LinesAtBoundary(a: string, b: string)
    requires AtLineStart(a)
    ensures Lines(a + b) == Lines(a) + Lines(b)
    ensures Rest(a + b) == Rest(b)
  {
    hide Lines, Rest;
    LinesConcat(a, b);
    LineStartHasNoRest(a);
    CompletedByNothing(Lines(b));
  }

  lemma CompletedByNothing(ls: seq<string>)
    ensures Completed("", ls) == ls
  {
    if ls != [] { assert "" + ls[0] == ls[0]; }
  }

  // ---- files written line by line ----

  function Terminated(ls: seq<string>): string {
    if ls == [] then "" else ls[0] + [NL] + Terminated(ls[1..])
  }

  lemma {:induction false} TerminatedConcat(a: seq<string>, b: seq<string>)
    ensures Terminated(a + b) == Terminated(a) + Terminated(b)
  {
    if a == [] {
      assert a + b == b;
    } else {
      assert (a + b)[1..] == a[1..] + b;
      TerminatedConcat(a[1..], b);
    }
  }

  ghost predicate OneLineEach(ls: seq<string>) { forall i :: 0 <= i < |ls| ==> NL !in ls[i] }

  lemma {:induction false} LinesOfTerminated(ls: seq<string>)
    requires OneLineEach(ls)
    ensures Lines(Terminated(ls)) == ls && Rest(Terminated(ls)) == ""
  {
    if ls != [] {
      var x, more := ls[0], Terminated(ls[1..]);
      LinesOfTerminated(ls[1..]);
      LineAlone(x);
      LinesAtBoundary(x + [NL], more);
    }
  }

  lemma LineAlone(x: string)
    requires NL !in x
    ensures Lines(x + [NL]) == [x] && Rest(x + [NL]) == ""
  {
    LinesConcat(x, [NL]);
    OneChar(NL);
    assert Split(x, NL) == [x];
  }

  /** The first line cut at n, and all the lines after it. */
  lemma LinesOfCut(x: string, n: nat, more: seq<string>)
    requires n <= |x| && NL !in x && OneLineEach(more)
    ensures Lines(x[n..] + [NL] + Terminated(more)) == [x[n..]] + more
    ensures Rest(x[n..] + [NL] + Terminated(more)) == ""
  {
    hide Lines, Rest;
    var piece := [x[n..]] + more;
    assert piece[1..] == more;
    LinesOfTerminated(piece);
  }

  lemma CutFirst(x: string, rest: string, n: nat)
    requires n <= |x|
    ensures (x + [NL] + rest)[n..] == x[n..] + [NL] + rest
  {
  }

  lemma TailOfLater(a: string, b: string, c: string)
    requires Tail(c, a + b) && |c| <= |b|
    ensures Tail(c, b)
  {
    assert (a + b)[|a| + |b| - |c|..] == b[|b| - |c|..];
  }

  /** What a suffix may begin with: nothing, or the end of the line before `from`. */
  ghost predicate TornFrom(torn: seq<string>, ls: seq<string>, from: nat) {
    && from <= |ls|
    && (torn == [] || (|torn| == 1 && from > 0 && |torn[0]| < |ls[from - 1]| && Tail(torn[0], ls[from - 1])))
  }

  /** A suffix of a file of lines has its last lines, and before them at most the end of one. */
  lemma {:induction false} LinesOfTail(c: string, ls: seq<string>) returns (from: nat, torn: seq<string>)
    requires OneLineEach(ls) && Tail(c, Terminated(ls))
    ensures TornFrom(torn, ls, from)
    ensures Lines(c) == torn + ls[from..] && Rest(c) == "" && c == Terminated(torn + ls[from..])
  {
    hide Lines, Rest;
    if ls == [] {
      from, torn := 0, [];
      LinesOfTerminated([]);
    } else {
      var x, more := ls[0], Terminated(ls[1..]);
      if |c| <= |more| {
        TailOfLater(x + [NL], more, c);
        from, torn := LinesOfTail(c, ls[1..]);
        assert ls[1..][from..] == ls[from + 1..];
        from := from + 1;
      } else {
        var n := |x| + 1 + |more| - |c|;
        CutFirst(x, more, n);
        LinesOfCut(x, n, ls[1..]);
        if n == 0 {
          from, torn := 0, [];
          assert x[0..] == x && ls[0..] == [x] + ls[1..];
        } else {
          from, torn := 1, [x[n..]];
          DropIsTail(x, n);
        }
      }
    }
  }
}
