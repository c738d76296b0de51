/** Host globs: the regular expression text that a glob is turned into, what that text means
    to the regexp engine, and the matching relation it is meant to express. */
module Globs {
  import opened Wrappers

  // ---- the translation ----

  const META: string := "\\.+*?()|[]{}^$"

  /** regexp.QuoteMeta of one character. */
  function QuoteMeta(c: char): string { if c in META then ['\\', c] else [c] }

  function Piece(c: char): string {
    if c == '*' then ".*" else if c == '?' then "." else QuoteMeta(c)
  }

  function Body(g: string): string {
    if g == "" then "" else Piece(g[0]) + Body(g[1..])
  }

  lemma {:induction false} BodyAppend(g: string, c: char)
    ensures Body(g + [c]) == Body(g) + Piece(c)
  {
    if g == "" {
      assert g + [c] == [c] && [c][1..] == "";
      assert Piece(c) + "" == "" + Piece(c);
    } else {
      assert (g + [c])[1..] == g[1..] + [c];
      BodyAppend(g[1..], c);
    }
  }

  /** The loop of globToRegexp. */
  method GlobToRegexp(g: string) returns (b: string)
    ensures b == "^" + Body(g) + "$"
  {
    b := "^";
    for i := 0 to |g|
      invariant b == "^" + Body(g[..i])
    {
      BodyAppend(g[..i], g[i]);
      assert g[..i + 1] == g[..i] + [g[i]];
      if g[i] == '*' {
        b := b + ".*";
      } else if g[i] == '?' {
        b := b + ".";
      } else {
        b := b + QuoteMeta(g[i]);
      }
    }
    assert g[..|g|] == g;
    b := b + "$";
  }

  // ---- the expression syntax and its meaning ----

  datatype Item = Begin | End | Lit(c: char) | Dot | DotStar

  /** The part of the syntax that translations use; anything else is not understood here. */
  function Parse(text: string): Option<seq<Item>>
    decreases |text|
  {
    if text == "" then Some([])
    else
      var c := text[0];
      if c == '^' then Prepend(Begin, Parse(text[1..]))
      else if c == '$' then Prepend(End, Parse(text[1..]))
      else if c == '\\' then if |text| > 1 && text[1] in META then Prepend(Lit(text[1]), Parse(text[2..])) else None
      else if c == '.' then
        if |text| > 1 && text[1] == '*' then Prepend(DotStar, Parse(text[2..])) else Prepend(Dot, Parse(text[1..]))
      else if c in META then None
      else Prepend(Lit(c), Parse(text[1..]))
  }

  function Prepend(i: Item, r: Option<seq<Item>>): Option<seq<Item>> {
    if r.Some? then Some([i] + r.value) else None
  }

  /** A match of the items that starts at i; a dot stands for anything but a line break. */
  predicate MatchesAt(items: seq<Item>, s: string, i: nat)
    requires i <= |s|
    decreases |items|, |s| - i
  {
    if items == [] then true
    else match items[0]
      case Begin => i == 0 && MatchesAt(items[1..], s, i)
      case End => i == |s| && MatchesAt(items[1..], s, i)
      case Lit(c) => i < |s| && s[i] == c && MatchesAt(items[1..], s, i + 1)
      case Dot => i < |s| && s[i] != '\n' && MatchesAt(items[1..], s, i + 1)
      case DotStar => MatchesAt(items[1..], s, i) || (i < |s| && s[i] != '\n' && MatchesAt(items, s, i + 1))
  }

  /** MatchString: a match anywhere in the text. */
  predicate MatchString(items: seq<Item>, s: string) {
    exists i :: 0 <= i <= |s| && MatchesAt(items, s, i)
  }

  // ---- what a glob means ----

  /** `*` stands for any characters and `?` for one; with lines false, not for a line break. */
  predicate GlobMatches(g: string, h: string, lines: bool)
    decreases |g|, |h|
  {
    if g == "" then h == ""
    else if g[0] == '*' then
      GlobMatches(g[1..], h, lines) || (h != "" && (lines || h[0] != '\n') && GlobMatches(g, h[1..], lines))
    else if g[0] == '?' then h != "" && (lines || h[0] != '\n') && GlobMatches(g[1..], h[1..], lines)
    else h != "" && h[0] == g[0] && GlobMatches(g[1..], h[1..], lines)
  }

  function ItemOf(c: char): Item { if c == '*' then DotStar else if c == '?' then Dot else Lit(c) }

  function Items(g: string): seq<Item> {
    if g == "" then [End] else [ItemOf(g[0])] + Items(g[1..])
  }

  lemma PieceParses(c: char, rest: string)
    requires rest != "" && rest[0] != '*'
    ensures Parse(Piece(c) + rest) == Prepend(ItemOf(c), Parse(rest))
  {
    var text := Piece(c) + rest;
    if c == '*' || (c != '?' && c in META) { assert text[2..] == rest; } else { assert text[1..] == rest; }
  }

  /** The text is read back as the items meant, whatever characters the glob contains. */
  lemma {:induction false} BodyParses(g: string)
    ensures Parse(Body(g) + "$") == Some(Items(g))
  {
    if g == "" {
      var text := Body(g) + "$";
      assert text[0] == '$' && text[1..] == "";
      assert Parse("") == Some([]) && [End] + [] == [End];
    } else {
      BodyParses(g[1..]);
      NoLeadingStar(g[1..]);
      PieceParses(g[0], Body(g[1..]) + "$");
      assert Body(g) + "$" == Piece(g[0]) + (Body(g[1..]) + "$");
    }
  }

  /** A piece never begins with a star, so a lone dot stays a lone dot. */
  lemma NoLeadingStar(g: string)
    ensures (Body(g) + "$")[0] != '*'
  {
    if g != "" { assert Body(g)[0] == Piece(g[0])[0]; }
  }

  lemma {:induction false} ItemsMatch(g: string, s: string, i: nat)
    requires i <= |s|
    ensures MatchesAt(Items(g), s, i) <==> GlobMatches(g, s[i..], false)
    decreases |g|, |s| - i
  {
    if g == "" {
      assert MatchesAt([End][1..], s, i);
    } else {
      var rest := Items(g[1..]);
      assert Items(g)[1..] == rest;
      if i < |s| { assert s[i..][1..] == s[i + 1..]; }
      if g[0] == '*' {
        ItemsMatch(g[1..], s, i);
        if i < |s| { ItemsMatch(g, s, i + 1); }
      } else if i < |s| {
        ItemsMatch(g[1..], s, i + 1);
      }
    }
  }

  /** The anchored expression matches a host exactly when the glob does with its wildcards
      kept on one line. */
  lemma GlobExact(g: string, h: string)
    ensures Parse("^" + Body(g) + "$").Some?
    ensures MatchString(Parse("^" + Body(g) + "$").value, h) <==> GlobMatches(g, h, false)
  {
    BodyParses(g);
    var text := "^" + Body(g) + "$";
    assert text[1..] == Body(g) + "$";
    var items := [Begin] + Items(g);
    assert items[1..] == Items(g);
    ItemsMatch(g, h, 0);
    assert h[0..] == h;
    assert MatchesAt(items, h, 0) == MatchesAt(Items(g), h, 0);
  }

  /** On a host without line breaks that is the glob relation itself. */
  lemma {:induction false} OneLine(g: string, h: string)
    requires '\n' !in h
    ensures GlobMatches(g, h, false) == GlobMatches(g, h, true)
    decreases |g|, |h|
  {
    if g != "" {
      if g[0] == '*' {
        OneLine(g[1..], h);
        if h != "" { OneLine(g, h[1..]); }
      } else if h != "" {
        OneLine(g[1..], h[1..]);
      }
    }
  }

  // ---- what the relation says about splits ----

  /** A star takes any stretch of the text. */
  lemma {:induction false} StarTakes(g: string, a: string, b: string)
    requires GlobMatches(g, b, true)
    ensures GlobMatches("*" + g, a + b, true)
  {
    var star := "*" + g;
    assert star[1..] == g;
    if a == "" {
      assert a + b == b;
    } else {
      StarTakes(g, a[1..], b);
      assert (a + b)[1..] == a[1..] + b;
    }
  }

  lemma {:induction false} StarGives(g: string, h: string) returns (k: nat)
    requires GlobMatches("*" + g, h, true)
    ensures k <= |h| && GlobMatches(g, h[k..], true)
    decreases |h|
  {
    var star := "*" + g;
    assert star[1..] == g;
    if GlobMatches(g, h, true) {
      k := 0;
      assert h[0..] == h;
    } else {
      k := StarGives(g, h[1..]);
      k := k + 1;
      assert h[1..][k - 1..] == h[k..];
    }
  }

  /** A glob without wildcards matches itself alone. */
  lemma {:induction false} LiteralMatches(g: string, h: string)
    requires '*' !in g && '?' !in g
    ensures GlobMatches(g, h, true) <==> h == g
  {
    if g != "" && h != "" { LiteralMatches(g[1..], h[1..]); }
  }

  /** Question marks match exactly the hosts of their number. */
  lemma {:induction false} QuestionMarksMatch(g: string, h: string)
    requires forall i :: 0 <= i < |g| ==> g[i] == '?'
    ensures GlobMatches(g, h, true) <==> |h| == |g|
  {
    if g != "" && h != "" {
      assert forall i :: 0 <= i < |g[1..]| ==> g[1..][i] == g[i + 1];
      QuestionMarksMatch(g[1..], h[1..]);
    }
  }

  predicate OccursAt(text: string, h: string, i: nat) { i + |text| <= |h| && h[i..i + |text|] == text }

  /** `*text*` matches exactly the hosts that contain the text. */
  lemma ContainsGlob(text: string, h: string)
    requires '*' !in text && '?' !in text
    ensures GlobMatches("*" + (text + "*"), h, true) <==> exists i: nat :: OccursAt(text, h, i)
  {
    if GlobMatches("*" + (text + "*"), h, true) {
      var k := StarGives(text + "*", h);
      PrefixTaken(text, "*", h[k..]);
      assert h[k..][..|text|] == h[k..k + |text|];
      assert OccursAt(text, h, k);
    }
    if i: nat :| OccursAt(text, h, i) { ContainingMatches(text, h, i); }
  }

  lemma ContainingMatches(text: string, h: string, i: nat)
    requires '*' !in text && '?' !in text && OccursAt(text, h, i)
    ensures GlobMatches("*" + (text + "*"), h, true)
  {
    var tail := h[i + |text|..];
    StarTakes("", tail, "");
    assert tail + "" == tail && "*" + "" == "*";
    PrefixMatches(text, "*", tail);
    StarTakes(text + "*", h[..i], text + tail);
    assert h == h[..i] + (text + tail);
  }

  lemma {:induction false} PrefixMatches(lit: string, g: string, h: string)
    requires '*' !in lit && '?' !in lit && GlobMatches(g, h, true)
    ensures GlobMatches(lit + g, lit + h, true)
  {
    if lit == "" {
      assert lit + g == g && lit + h == h;
    } else {
      PrefixMatches(lit[1..], g, h);
      assert (lit + g)[1..] == lit[1..] + g && (lit + h)[1..] == lit[1..] + h;
    }
  }

  lemma {:induction false} PrefixTaken(lit: string, g: string, h: string)
    requires '*' !in lit && '?' !in lit && GlobMatches(lit + g, h, true)
    ensures |lit| <= |h| && h[..|lit|] == lit && GlobMatches(g, h[|lit|..], true)
  {
    if lit == "" {
      assert lit + g == g && h[0..] == h;
    } else {
      assert (lit + g)[1..] == lit[1..] + g;
      PrefixTaken(lit[1..], g, h[1..]);
      assert h[1..][|lit| - 1..] == h[|lit|..];
      assert h[..|lit|] == [h[0]] + h[1..][..|lit| - 1];
    }
  }
}
