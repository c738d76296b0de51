/** The audit log: records appended to a file that is halved like the activity file, and a
    reader that looks at its last megabyte. JSON is a parameter. */
module AuditLog {
  import opened Wrappers
  import opened Text
  import opened Sequences
  import opened FileLines
  import ActivityLog

  const MAX_BYTES: nat := 0x320_0000
  const WINDOW: nat := 0x10_0000

  datatype AuditEntry = AuditEntry(time: string, action: string, who: string, detail: string)

  datatype AuditCodec = AuditCodec(enc: AuditEntry -> string, dec: string -> Option<AuditEntry>)
  {
    /** One line per entry, no space around it, read back as it was; the end of one is none. */
    ghost predicate Faithful() {
      && (forall e :: NL !in enc(e) && enc(e) != "" && Trimmed(enc(e)) && dec(enc(e)) == Some(e))
      && (forall e, x :: Tail(x, enc(e)) && |x| < |enc(e)| ==> dec(x).None?)
    }

    function ReadLine(line: string): Option<AuditEntry> {
      var text := TrimSpace(line);
      if text == "" then None else dec(text)
    }
  }

  /** The file after the records, when it held base at the start. */
  function Recorded(k: AuditCodec, base: string, es: seq<AuditEntry>): string {
    if es == [] then base else ActivityLog.Append(Recorded(k, base, es[..|es| - 1]), k.enc(es[|es| - 1]), MAX_BYTES)
  }

  function Encoded(k: AuditCodec, es: seq<AuditEntry>): seq<string> {
    seq(|es|, i requires 0 <= i < |es| => k.enc(es[i]))
  }

  function Offset(c: string): (off: nat)
    ensures off <= |c|
  {
    if |c| > WINDOW then |c| - WINDOW else 0
  }

  /** The pieces between newlines that lie wholly in the last megabyte; the first piece read
      is dropped when the window cuts it. */
  function Whole(c: string): seq<string> {
    var off := Offset(c);
    var p := Split(c[off..], NL);
    if off > 0 && c[off - 1] != NL then p[1..] else p
  }

  /** A line is decoded without the blank text around it, and a blank line is none. */
  lemma ReadLineTrims(k: AuditCodec, a: string, s: string, b: string)
    requires Blank(a) && Blank(b) && s != "" && '!' <= s[0] <= '~' && '!' <= s[|s| - 1] <= '~'
    ensures k.ReadLine(a + s + b) == k.dec(s) && k.ReadLine("") == None
  {
    TrimExact(a, s, b);
  }

  /** The window is the last mebibyte, and the limit of the file fifty. */
  lemma AuditInNumbers(c: string)
    ensures |c[Offset(c)..]| == (if |c| > 1024 * 1024 then 1024 * 1024 else |c|) && MAX_BYTES == 50 * 1024 * 1024
  {
  }

  lemma GlueAfterBlank(p: seq<string>, q: seq<string>)
    requires p != [] && q != [] && p[|p| - 1] == ""
    ensures Glue(p, q) == p[..|p| - 1] + q
  {
    assert "" + q[0] == q[0];
  }

  /** Whether the window begins in the middle of a piece. */
  predicate Cuts(c: string) { Offset(c) > 0 && c[Offset(c) - 1] != NL }

  /** The pieces of the file are those that end before the window, the one that it cuts if
      it does, and the pieces looked at. */
  lemma WholePieces(c: string)
    ensures var before, read := Split(c[..Offset(c)], NL), Split(c[Offset(c)..], NL);
            Split(c, NL) == Init(before) + (if Cuts(c) then [Last(before) + read[0]] else []) + Whole(c)
    ensures Tail(Whole(c), Split(c, NL))
  {
    hide Split;
    var a, b := c[..Offset(c)], c[Offset(c)..];
    assert c == a + b;
    SplitConcat(a, b, NL);
    LineStartHasNoRest(a);
    var p, q := Split(a, NL), Split(b, NL);
    if !Cuts(c) {
      GlueAfterBlank(p, q);
      assert p[..|p| - 1] + [] == p[..|p| - 1];
    }
  }

  // ---- the file over a run ----

  lemma OneMoreLine(k: AuditCodec, base: string, es: seq<AuditEntry>, e: AuditEntry)
    ensures base + Terminated(Encoded(k, es + [e])) == base + Terminated(Encoded(k, es)) + (k.enc(e) + [NL])
  {
    assert Encoded(k, es + [e]) == Encoded(k, es) + [k.enc(e)];
    TerminatedConcat(Encoded(k, es), [k.enc(e)]);
    var one := [k.enc(e)];
    assert one[1..] == [] && Terminated(one) == k.enc(e) + [NL] + "" == k.enc(e) + [NL];
    Regroup(base, Terminated(Encoded(k, es)), k.enc(e) + [NL]);
  }

  lemma {:induction false} RecordedIsTail(k: AuditCodec, base: string, es: seq<AuditEntry>)
    ensures Tail(Recorded(k, base, es), base + Terminated(Encoded(k, es)))
  {
    if es == [] {
      assert base + Terminated(Encoded(k, [])) == base;
    } else {
      var before, e := es[..|es| - 1], es[|es| - 1];
      RecordedIsTail(k, base, before);
      ActivityLog.AppendIsTail(Recorded(k, base, before), k.enc(e), MAX_BYTES, base + Terminated(Encoded(k, before)));
      OneMoreLine(k, base, before, e);
      assert es == before + [e];
    }
  }

  lemma {:induction false} TrimLeftIsTail(s: string)
    ensures Tail(TrimLeft(s), s)
  {
    if s != [] && IsSpace(s[0]) {
      TrimLeftIsTail(s[1..]);
      TailTransitive(TrimLeft(s), s[1..], s);
    }
  }

  lemma FragmentReadsNothing(k: AuditCodec, x: string, e: AuditEntry)
    requires k.Faithful() && Tail(x, k.enc(e)) && |x| < |k.enc(e)|
    ensures k.ReadLine(x).None?
  {
    var left := TrimLeft(x);
    TrimLeftIsTail(x);
    TailTransitive(left, x, k.enc(e));
    assert left != [] ==> left[|left| - 1] == k.enc(e)[|k.enc(e)| - 1];
    assert TrimRight(left) == left;
  }

  lemma ReadsOwnLine(k: AuditCodec, e: AuditEntry)
    requires k.Faithful()
    ensures k.ReadLine(k.enc(e)) == Some(e)
  {
    TrimSpaceTrims(k.enc(e));
    hide TrimSpace, Trimmed;
  }

  lemma EncodedFirst(k: AuditCodec, es: seq<AuditEntry>)
    requires es != []
    ensures Encoded(k, es) == [k.enc(es[0])] + Encoded(k, es[1..])
  {
  }

  lemma {:induction false} ReadsBack(k: AuditCodec, es: seq<AuditEntry>)
    requires k.Faithful()
    ensures Collect(k.ReadLine, Encoded(k, es)) == es
  {
    if es != [] {
      hide Collect, Encoded, AuditCodec.Faithful, AuditCodec.ReadLine;
      var e, more := es[0], es[1..];
      ReadsBack(k, more);
      EncodedFirst(k, es);
      CollectFirst(k.ReadLine, k.enc(e), Encoded(k, more));
      ReadsOwnLine(k, e);
      assert es == [e] + more;
    }
  }

  lemma TornReadsNothing(k: AuditCodec, torn: seq<string>, es: seq<AuditEntry>, from: nat)
    requires k.Faithful() && TornFrom(torn, Encoded(k, es), from)
    ensures Collect(k.ReadLine, torn) == []
  {
    if torn != [] {
      hide Collect, AuditCodec.Faithful, AuditCodec.ReadLine;
      assert torn == [torn[0]];
      FragmentReadsNothing(k, torn[0], es[from - 1]);
      ReadsNothing(k, torn[0]);
    }
  }

  lemma ReadsNothing(k: AuditCodec, line: string)
    requires k.ReadLine(line).None?
    ensures Collect(k.ReadLine, [line]) == []
  {
  }

  lemma PiecesReadBack(k: AuditCodec, torn: seq<string>, es: seq<AuditEntry>)
    requires k.Faithful() && Collect(k.ReadLine, torn) == []
    ensures Collect(k.ReadLine, torn + Encoded(k, es) + [""]) == es
  {
    assert k.ReadLine("").None?;
    hide Collect, AuditCodec.Faithful, AuditCodec.ReadLine;
    var later := Encoded(k, es);
    ReadsBack(k, es);
    CollectConcat(k.ReadLine, torn + later, [""]);
    CollectConcat(k.ReadLine, torn, later);
    ReadsNothing(k, "");
    assert [] + es + [] == es;
  }

  lemma EncodedFrom(k: AuditCodec, torn: seq<string>, es: seq<AuditEntry>, from: nat)
    requires TornFrom(torn, Encoded(k, es), from)
    ensures from <= |es| && Encoded(k, es)[from..] == Encoded(k, es[from..])
  {
  }

  lemma OneLinePerEntry(k: AuditCodec, es: seq<AuditEntry>)
    requires k.Faithful()
    ensures OneLineEach(Encoded(k, es))
  {
  }

  lemma PiecesAreLines(c: string)
    ensures Split(c, NL) == Lines(c) + [Rest(c)]
  {
  }

  /** The bytes that the entries from m on take up in a file. */
  function SizeFrom(k: AuditCodec, es: seq<AuditEntry>, m: nat): nat
    requires m <= |es|
  {
    |Terminated(Encoded(k, es[m..]))|
  }

  lemma SizeStep(k: AuditCodec, es: seq<AuditEntry>, m: nat)
    requires m < |es|
    ensures SizeFrom(k, es, m) == |k.enc(es[m])| + 1 + SizeFrom(k, es, m + 1)
  {
    assert es[m..][1..] == es[m + 1..];
    assert Encoded(k, es[m..])[1..] == Encoded(k, es[m + 1..]);
  }

  lemma {:induction false} SizeShrinks(k: AuditCodec, es: seq<AuditEntry>, m: nat, n: nat)
    requires m < n <= |es|
    ensures SizeFrom(k, es, n) + 1 + |k.enc(es[n - 1])| <= SizeFrom(k, es, m)
    decreases n - m
  {
    hide SizeFrom;
    SizeStep(k, es, m);
    if m + 1 < n {
      SizeShrinks(k, es, m + 1, n);
    }
  }

  /** A suffix of the written bytes holds exactly the entries that fit into it. */
  lemma FitsExactly(k: AuditCodec, es: seq<AuditEntry>, torn: seq<string>, from: nat, size: nat, m: nat)
    requires TornFrom(torn, Encoded(k, es), from) && m <= |es|
    requires size == |Terminated(torn + Encoded(k, es)[from..])|
    ensures from <= m <==> SizeFrom(k, es, m) <= size
  {
    EncodedFrom(k, torn, es, from);
    TerminatedConcat(torn, Encoded(k, es[from..]));
    assert size == |Terminated(torn)| + SizeFrom(k, es, from);
    if from < m { SizeShrinks(k, es, from, m); }
    if m < from {
      SizeShrinks(k, es, m, from);
      TornIsShorter(k, es, torn, from);
    }
  }

  lemma TornIsShorter(k: AuditCodec, es: seq<AuditEntry>, torn: seq<string>, from: nat)
    requires TornFrom(torn, Encoded(k, es), from) && from > 0
    ensures |Terminated(torn)| < 1 + |k.enc(es[from - 1])|
  {
    if torn != [] {
      assert torn == [torn[0]] && torn[1..] == [];
      assert Terminated(torn) == torn[0] + [NL] + Terminated([]);
    }
  }

  lemma {:induction false} EndsWithNewline(ls: seq<string>)
    requires ls != []
    ensures var t := Terminated(ls); t != "" && t[|t| - 1] == NL
  {
    var n := |ls| - 1;
    var one := [ls[n]];
    assert ls == ls[..n] + one && one[1..] == [];
    TerminatedConcat(ls[..n], one);
    assert Terminated(one) == ls[n] + [NL] + Terminated([]) == ls[n] + [NL];
  }

  lemma ByteBefore(c: string, before: string, w: string)
    requires Tail(c, before + w) && |w| < |c|
    ensures before != "" && c[|c| - |w| - 1] == before[|before| - 1]
  {
  }

  /** A window that begins with a whole line has a newline before it, or nothing. */
  lemma WholeLineNotCut(c: string, base: string, ls: seq<string>, from: nat)
    requires AtLineStart(base) && Tail(c, base + Terminated(ls)) && from <= |ls| && c[Offset(c)..] == Terminated(ls[from..])
    ensures !Cuts(c)
  {
    hide Terminated, Tail;
    if Offset(c) > 0 {
      var first, w := Terminated(ls[..from]), Terminated(ls[from..]);
      assert ls == ls[..from] + ls[from..];
      TerminatedConcat(ls[..from], ls[from..]);
      Regroup(base, first, w);
      ByteBefore(c, base + first, w);
      if ls[..from] == [] {
        NothingTerminated();
        assert base + first == base;
      } else {
        EndsWithNewline(ls[..from]);
      }
    }
  }

  lemma NothingTerminated()
    ensures Terminated([]) == ""
  {
  }

  /** Nothing that is dropped or torn would have decoded. */
  lemma WholeReads(k: AuditCodec, c: string, base: string, es: seq<AuditEntry>, torn: seq<string>, from: nat)
    requires k.Faithful() && AtLineStart(base) && Tail(c, base + Terminated(Encoded(k, es)))
    requires TornFrom(torn, Encoded(k, es), from)
    requires c[Offset(c)..] == Terminated(torn + Encoded(k, es)[from..])
    requires Split(c[Offset(c)..], NL) == torn + Encoded(k, es)[from..] + [""]
    ensures from <= |es| && Collect(k.ReadLine, Whole(c)) == es[from..]
  {
    hide Collect, Split, AuditCodec.Faithful, AuditCodec.ReadLine, Terminated, Tail, Encoded, AtLineStart;
    var ls := Encoded(k, es);
    EncodedFrom(k, torn, es, from);
    var later := ls[from..];
    if Cuts(c) {
      if torn == [] {
        assert torn + later == later;
        WholeLineNotCut(c, base, ls, from);
      } else {
        assert (torn + later + [""])[1..] == [] + later + [""];
        ReadsNone(k);
        PiecesReadBack(k, [], es[from..]);
      }
    } else {
      TornReadsNothing(k, torn, es, from);
      PiecesReadBack(k, torn, es[from..]);
    }
  }

  lemma ReadsNone(k: AuditCodec)
    ensures Collect(k.ReadLine, []) == []
  {
  }

  /** A window no larger than the records. */
  lemma WindowWithin(k: AuditCodec, c: string, base: string, es: seq<AuditEntry>) returns (from: nat)
    requires k.Faithful() && AtLineStart(base) && Tail(c, base + Terminated(Encoded(k, es)))
    requires |c[Offset(c)..]| <= SizeFrom(k, es, 0)
    ensures from <= |es| && Collect(k.ReadLine, Whole(c)) == es[from..]
    ensures forall m: nat :: m <= |es| ==> (from <= m <==> SizeFrom(k, es, m) <= |c[Offset(c)..]|)
  {
    var w := c[Offset(c)..];
    var ls := Encoded(k, es);
    assert es[0..] == es;
    hide Collect, Split, Whole, AuditCodec.Faithful, AuditCodec.ReadLine, Terminated, Tail, TornFrom, Encoded, AtLineStart;
    OneLinePerEntry(k, es);
    DropIsTail(c, Offset(c));
    TailTransitive(w, c, base + Terminated(ls));
    TailOfLater(base, Terminated(ls), w);
    hide SizeFrom;
    var torn;
    from, torn := LinesOfTail(w, ls);
    EncodedFrom(k, torn, es, from);
    PiecesAreLines(w);
    WholeReads(k, c, base, es, torn, from);
    forall m: nat | m <= |es| ensures from <= m <==> SizeFrom(k, es, m) <= |w| {
      FitsExactly(k, es, torn, from, |w|, m);
    }
  }

  lemma PiecesOfRecords(k: AuditCodec, es: seq<AuditEntry>)
    requires k.Faithful()
    ensures Split(Terminated(Encoded(k, es)), NL) == Encoded(k, es) + [""]
  {
    OneLinePerEntry(k, es);
    hide Split, Terminated, Encoded, AuditCodec.Faithful, Lines, Rest;
    LinesOfTerminated(Encoded(k, es));
    PiecesAreLines(Terminated(Encoded(k, es)));
  }

  /** A text that ends with a newline has a line, and nothing after its last one. */
  lemma PiecesOfLines(x: string)
    requires x != "" && AtLineStart(x)
    ensures Lines(x) != [] && Last(Split(x, NL)) == ""
  {
    hide Split, Lines;
    assert x == x[..|x| - 1] + [NL];
    OneMoreChar(x[..|x| - 1], NL);
    LineStartHasNoRest(x);
  }

  /** The pieces of a text that ends with a newline and the records after it. */
  lemma PiecesBeyond(k: AuditCodec, x: string, es: seq<AuditEntry>) returns (pre: seq<string>)
    requires k.Faithful() && x != "" && AtLineStart(x)
    ensures pre != [] && Split(x + Terminated(Encoded(k, es)), NL) == pre + (Encoded(k, es) + [""])
  {
    hide Split, Encoded, Terminated, AtLineStart, AuditCodec.Faithful, Glue;
    var t := Terminated(Encoded(k, es));
    PiecesOfRecords(k, es);
    PiecesOfLines(x);
    SplitConcat(x, t, NL);
    pre := Init(Split(x, NL));
    GlueAfterBlank(Split(x, NL), Split(t, NL));
  }

  lemma CutSuffix(base: string, t: string, w: string) returns (x: string)
    requires AtLineStart(base) && Tail(w, base + t) && |t| < |w|
    ensures x != "" && AtLineStart(x) && w == x + t
  {
    x := base[|base| + |t| - |w|..];
  }

  /** A window larger than the records. */
  lemma WindowBeyond(k: AuditCodec, c: string, base: string, es: seq<AuditEntry>) returns (older: seq<AuditEntry>)
    requires k.Faithful() && AtLineStart(base) && Tail(c, base + Terminated(Encoded(k, es)))
    requires |Terminated(Encoded(k, es))| < |c[Offset(c)..]|
    ensures Collect(k.ReadLine, Whole(c)) == older + es
  {
    hide Collect, Split, AuditCodec.Faithful, AuditCodec.ReadLine, Terminated, Tail, Encoded, AtLineStart;
    var w, t := c[Offset(c)..], Terminated(Encoded(k, es));
    DropIsTail(c, Offset(c));
    TailTransitive(w, c, base + t);
    var x := CutSuffix(base, t, w);
    var pre := PiecesBeyond(k, x, es);
    var late := Encoded(k, es) + [""];
    if Cuts(c) {
      assert (pre + late)[1..] == pre[1..] + late;
      pre := pre[1..];
    }
    assert Whole(c) == pre + late;
    older := Collect(k.ReadLine, pre);
    CollectConcat(k.ReadLine, pre, late);
    ReadsNone(k);
    PiecesReadBack(k, [], es);
    assert [] + Encoded(k, es) + [""] == late;
  }

  lemma AllFit(k: AuditCodec, es: seq<AuditEntry>, m: nat)
    requires m <= |es|
    ensures SizeFrom(k, es, m) <= SizeFrom(k, es, 0)
  {
    if m > 0 { SizeShrinks(k, es, 0, m); }
  }

  /** Which of the records are read, and what before them. */
  ghost predicate ReadsNewest(k: AuditCodec, c: string, es: seq<AuditEntry>, older: seq<AuditEntry>, from: nat) {
    && from <= |es| && Collect(k.ReadLine, Whole(c)) == older + es[from..] && (from > 0 ==> older == [])
    && forall m: nat :: m <= |es| ==> (from <= m <==> SizeFrom(k, es, m) <= WINDOW && SizeFrom(k, es, m) <= |c|)
  }

  lemma NothingOlder(k: AuditCodec, c: string, es: seq<AuditEntry>, from: nat)
    requires from <= |es| && Collect(k.ReadLine, Whole(c)) == es[from..]
    requires forall m: nat :: m <= |es| ==> (from <= m <==> SizeFrom(k, es, m) <= |c[Offset(c)..]|)
    ensures ReadsNewest(k, c, es, [], from)
  {
    hide Collect, Whole, SizeFrom;
    assert [] + es[from..] == es[from..];
  }

  lemma WindowReads(k: AuditCodec, c: string, base: string, es: seq<AuditEntry>) returns (older: seq<AuditEntry>, from: nat)
    requires k.Faithful() && AtLineStart(base) && Tail(c, base + Terminated(Encoded(k, es)))
    ensures ReadsNewest(k, c, es, older, from)
  {
    assert es[0..] == es;
    assert SizeFrom(k, es, 0) == |Terminated(Encoded(k, es))|;
    hide Collect, Whole, AuditCodec.Faithful, Terminated, Tail, SizeFrom, AtLineStart;
    if |c[Offset(c)..]| <= SizeFrom(k, es, 0) {
      from := WindowWithin(k, c, base, es);
      older := [];
      NothingOlder(k, c, es, from);
    } else {
      older := WindowBeyond(k, c, base, es);
      from := 0;
      forall m: nat | m <= |es| ensures SizeFrom(k, es, m) <= |c[Offset(c)..]| { AllFit(k, es, m); }
    }
  }

  /** After any records, through every rotation, what the reader decodes ends with the newest
      records, exactly as many as fit whole into the window and the file; anything older only
      when all of them do. When the file at the start ended within a line, the first record
      was written onto that line and does not count. */
  lemma RecentIsNewestRecords(k: AuditCodec, base: string, es: seq<AuditEntry>)
    returns (older: seq<AuditEntry>, from: nat)
    requires k.Faithful() && (AtLineStart(base) || es != [])
    ensures ReadsNewest(k, Recorded(k, base, es), if AtLineStart(base) then es else es[1..], older, from)
  {
    RecordedIsTail(k, base, es);
    if AtLineStart(base) {
      older, from := WindowReads(k, Recorded(k, base, es), base, es);
    } else {
      var longer, later := base + (k.enc(es[0]) + [NL]), es[1..];
      assert Encoded(k, es) == [k.enc(es[0])] + Encoded(k, later);
      assert ([k.enc(es[0])] + Encoded(k, later))[1..] == Encoded(k, later);
      Regroup(base, k.enc(es[0]) + [NL], Terminated(Encoded(k, later)));
      older, from := WindowReads(k, Recorded(k, base, es), longer, later);
    }
  }

  lemma FreshFileIsRecords(k: AuditCodec, es: seq<AuditEntry>)
    ensures Tail(Recorded(k, "", es), "" + Terminated(Encoded(k, es)))
    ensures |Recorded(k, "", es)[Offset(Recorded(k, "", es))..]| <= SizeFrom(k, es, 0)
  {
    hide Recorded, Terminated, Encoded;
    RecordedIsTail(k, "", es);
    assert es[0..] == es;
  }

  /** On a fresh file nothing else is read. */
  lemma FreshFileReads(k: AuditCodec, es: seq<AuditEntry>) returns (from: nat)
    requires k.Faithful()
    ensures ReadsNewest(k, Recorded(k, "", es), es, [], from)
  {
    assert AtLineStart("");
    hide Collect, Whole, AuditCodec.Faithful, Terminated, Tail, SizeFrom, Recorded, Encoded, AtLineStart;
    FreshFileIsRecords(k, es);
    hide ReadsNewest, Offset;
    from := WindowWithin(k, Recorded(k, "", es), "", es);
    NothingOlder(k, Recorded(k, "", es), es, from);
  }

  // ---- the source's own form ----

  class AuditFile {
    const codec: AuditCodec
    var file: string
    var size: int

    ghost predicate Valid()
      reads this
    {
      size == |file|
    }

    constructor (codec: AuditCodec, disk: string)
      ensures Valid() && this.codec == codec && file == disk
    {
      this.codec := codec;
      file, size := disk, |disk|;
    }

    method Record(e: AuditEntry)
      requires Valid()
      modifies this
      ensures Valid() && file == ActivityLog.Append(old(file), codec.enc(e), MAX_BYTES)
    {
      var line := codec.enc(e);
      if size + |line| > MAX_BYTES {
        Rotate();
      }
      Regroup(file, line, [NL]);
      file := file + (line + [NL]);
      size := size + |line| + 1;
    }

    method Rotate()
      requires Valid()
      modifies this
      ensures Valid() && file == old(file)[|old(file)| / 2..]
    {
      if |file| > 0 {
        file := file[|file| / 2..];
      }
      size := |file|;
    }

    method ReadWindow() returns (lines: seq<string>)
      ensures lines == Whole(file)
    {
      hide Split;
      var off := |file| - WINDOW;
      if off < 0 {
        off := 0;
      }
      lines := Split(file[off..], NL);
      if off > 0 && |lines| > 0 {
        if file[off - 1] != NL {
          lines := lines[1..];
        }
      }
    }

    /** The newest entries of the window, newest first. */
    method Recent(limit: int) returns (out: seq<AuditEntry>)
      ensures out == Reversed(LastN(Collect(codec.ReadLine, Whole(file)),
                                    if limit <= 0 || limit > 5000 then 500 else limit))
    {
      hide Whole, AuditCodec.ReadLine, Newest, Reversed, LastN, Collect;
      var max := if limit <= 0 || limit > 5000 then 500 else limit;
      var lines := ReadWindow();
      out := [];
      var i := |lines| - 1;
      assert lines[..i + 1] == lines;
      while i >= 0 && |out| < max
        invariant -1 <= i < |lines| && |out| <= max
        invariant out + Newest(codec.ReadLine, lines[..i + 1], max - |out|) == Newest(codec.ReadLine, lines, max)
      {
        NewestStep(codec.ReadLine, lines, i, max - |out|);
        var e := codec.ReadLine(lines[i]);
        if e.Some? {
          out := out + [e.value];
        }
        i := i - 1;
      }
      NewestDone(codec.ReadLine, lines[..i + 1], max - |out|);
      NewestIsReversedEnd(codec.ReadLine, lines, max);
    }
  }
}
