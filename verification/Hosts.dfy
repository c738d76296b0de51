/** Host and CONNECT target normalisation: the host that the rules judge against the host
    that is dialled. Parsing an IP literal is a parameter. */
module Hosts {
  import opened Wrappers
  import opened Text

  /** net.ParseIP followed by String: the canonical text of an IP literal. */
  type IpParser = string -> Option<string>

  predicate NoBrackets(s: string) { '[' !in s && ']' !in s }

  predicate OneColon(s: string) { ':' in s && IndexOf(s, ':') == LastIndexOf(s, ':') }

  /** What every IP parser satisfies: literals are plain non-empty text, a single colon never
      makes one, and the canonical form is lower-case and its own canonical form. */
  ghost predicate IpText(ip: IpParser) {
    forall s :: ip(s).Some? ==>
      var c := ip(s).value;
      && s != "" && !OneColon(s)
      && c != "" && ip(c) == Some(c) && ToLower(c) == c && Trimmed(c) && NoBrackets(c)
  }

  predicate IsNumericPort(p: string) {
    p != "" && |p| <= 5 && forall i :: 0 <= i < |p| ==> '0' <= p[i] <= '9'
  }

  /** The port that normalizeHost strips. */
  predicate Strippable(port: string) { port == "" || IsNumericPort(port) }

  function NormalizeHost(ip: IpParser, raw: string): string {
    var h := ToLower(TrimSpace(raw));
    if h == "" then ""
    else if h[0] == '[' && IndexOf(h, ']') > 0 then h[1..IndexOf(h, ']')]
    else if ip(h).Some? then ip(h).value
    else
      var i := LastIndexOf(h, ':');
      if i >= 0 && Strippable(h[i + 1..]) then h[..i] else h
  }

  /** net.SplitHostPort on text that does not begin with a bracket. */
  function SplitHostPort(s: string): Option<(string, string)> {
    var i := LastIndexOf(s, ':');
    if i < 0 || ':' in s[..i] || !NoBrackets(s) then None else Some((s[..i], s[i + 1..]))
  }

  /** Host and port of a CONNECT target, before the defaults. */
  function SplitTarget(s: string): (string, string) {
    if s != "" && s[0] == '[' then
      var i := IndexOf(s, ']');
      if i > 0 then (s[1..i], if i + 1 < |s| && s[i + 1] == ':' then s[i + 2..] else "") else (s, "")
    else
      var hp := SplitHostPort(s);
      if hp.Some? then hp.value else (s, "")
  }

  function NormalizeTarget(raw: string): string {
    var s := ToLower(TrimSpace(raw));
    var (host, port) := SplitTarget(s);
    if s == "" || host == "" then "" else JoinHostPort(host, if port == "" then "443" else port)
  }

  function JoinHostPort(host: string, port: string): string {
    (if ':' in host then "[" + host + "]" else host) + ":" + port
  }

  /** Where a connection for the target goes. */
  function DialledHost(raw: string): string { SplitTarget(ToLower(TrimSpace(raw))).0 }

  function DialledPort(raw: string): string { SplitTarget(ToLower(TrimSpace(raw))).1 }

  /** No stray brackets, no space around the host, no second colon in the port. */
  predicate Clean(raw: string) {
    var (host, port) := SplitTarget(ToLower(TrimSpace(raw)));
    host != "" && NoBrackets(host) && NoBrackets(port) && Trimmed(host) && ':' !in port
  }

  predicate Lower(s: string) { forall i :: 0 <= i < |s| ==> LowerChar(s[i]) == s[i] }

  lemma PieceLower(s: string, i: nat, j: nat)
    requires Lower(s) && i <= j <= |s|
    ensures Lower(s[i..j])
  {
  }

  lemma EndSettled(s: string, i: nat)
    requires Lower(s) && Trimmed(s) && i <= |s|
    ensures Lower(s[i..]) && (s[i..] != "" ==> !IsSpace(s[i..][|s[i..]| - 1]))
  {
  }

  lemma PartsSettled(s: string)
    requires Lower(s) && Trimmed(s)
    ensures var (host, port) := SplitTarget(s);
            Lower(host) && Lower(port) && (port != "" ==> !IsSpace(port[|port| - 1]))
  {
    assert Lower("");
    hide Lower, IsSpace, Trimmed;
    if s != "" && s[0] == '[' {
      var i := IndexOf(s, ']');
      if i > 0 {
        PieceLower(s, 1, i);
        if i + 1 < |s| { EndSettled(s, i + 2); }
      }
    } else if SplitHostPort(s).Some? {
      var i := LastIndexOf(s, ':');
      PieceLower(s, 0, i);
      assert s[0..i] == s[..i];
      EndSettled(s, i + 1);
    }
  }

  lemma Settles(t: string)
    requires Lower(t) && Trimmed(t)
    ensures ToLower(TrimSpace(t)) == t
  {
    TrimSpaceTrims(t);
  }

  lemma JoinSettled(host: string, port: string)
    requires host != "" && port != "" && Lower(host) && Lower(port) && Trimmed(host) && !IsSpace(port[|port| - 1])
    ensures Lower(JoinHostPort(host, port)) && Trimmed(JoinHostPort(host, port))
  {
    var t := JoinHostPort(host, port);
    assert t[|t| - 1] == port[|port| - 1];
  }

  lemma BracketPositions(host: string, port: string)
    requires NoBrackets(host)
    ensures var t := "[" + host + "]" + ":" + port;
            && t[0] == '[' && IndexOf(t, ']') == |host| + 1
            && t[1..|host| + 1] == host && t[|host| + 2] == ':' && t[|host| + 3..] == port
  {
    var t := "[" + host + "]" + ":" + port;
    assert t[|host| + 1] == ']' && t[..|host| + 1] == "[" + host;
    FirstOf(t, |host| + 1, ']');
  }

  /** A bracketed target is judged by what is between the brackets, whatever the port. */
  lemma BracketedJudged(ip: IpParser, t: string, host: string, port: string)
    requires host != "" && NoBrackets(host) && t == "[" + host + "]" + ":" + port && Lower(t) && Trimmed(t)
    ensures NormalizeHost(ip, t) == host
  {
    Settles(t);
    BracketPositions(host, port);
  }

  lemma PlainPositions(host: string, port: string)
    requires host != "" && ':' !in host && ':' !in port
    ensures var t := host + ":" + port;
            && IndexOf(t, ':') == LastIndexOf(t, ':') == |host|
            && t[..|host|] == host && t[|host| + 1..] == port && t[0] == host[0]
  {
    var t := host + ":" + port;
    assert t[|host|] == ':' && t[..|host|] == host && t[|host| + 1..] == port;
    FirstOf(t, |host|, ':');
    LastOf(t, |host|, ':');
  }

  lemma PlainStripped(ip: IpParser, t: string, i: nat)
    requires t != "" && t[0] != '[' && Lower(t) && Trimmed(t) && ip(t).None? && LastIndexOf(t, ':') == i
    ensures NormalizeHost(ip, t) == if Strippable(t[i + 1..]) then t[..i] else t
  {
    Settles(t);
  }

  /** A plain target loses exactly a strippable port. */
  lemma PlainJudged(ip: IpParser, host: string, port: string)
    requires IpText(ip) && host != "" && NoBrackets(host) && ':' !in host && ':' !in port
    requires Lower(host + ":" + port) && Trimmed(host + ":" + port)
    ensures NormalizeHost(ip, host + ":" + port) == if Strippable(port) then host else host + ":" + port
  {
    var t := host + ":" + port;
    PlainPositions(host, port);
    assert ip(t).None? by { assert OneColon(t); }
    PlainStripped(ip, t, |host|);
  }

  lemma SplitBracketed(host: string, port: string)
    requires NoBrackets(host)
    ensures SplitTarget("[" + host + "]" + ":" + port) == (host, port)
  {
    BracketPositions(host, port);
    hide SplitHostPort, NoBrackets, IndexOf, LastIndexOf;
  }

  lemma JoinedNoBrackets(host: string, port: string)
    requires NoBrackets(host) && NoBrackets(port)
    ensures NoBrackets(host + ":" + port)
  {
  }

  lemma SplitPlain(host: string, port: string)
    requires host != "" && NoBrackets(host) && NoBrackets(port) && ':' !in host && ':' !in port
    ensures SplitTarget(host + ":" + port) == (host, port)
  {
    PlainPositions(host, port);
    JoinedNoBrackets(host, port);
    assert host[0] != '[';
    hide NoBrackets, IndexOf, LastIndexOf;
  }

  /** What is dialled splits into the host and port that were joined. */
  lemma JoinSplits(host: string, port: string)
    requires host != "" && NoBrackets(host) && NoBrackets(port) && ':' !in port
    ensures SplitTarget(JoinHostPort(host, port)) == (host, port)
  {
    hide SplitTarget, NoBrackets;
    if ':' in host { SplitBracketed(host, port); } else { SplitPlain(host, port); }
  }

  /** The digits written out: a plain host loses a port of at most five digits and keeps any other. */
  lemma PortDigits(ip: IpParser, host: string, port: string)
    requires IpText(ip) && host != "" && NoBrackets(host) && ':' !in host && ':' !in port
    requires Lower(host + ":" + port) && Trimmed(host + ":" + port)
    ensures NormalizeHost(ip, host + ":" + port)
            == if |port| <= 5 && forall i :: 0 <= i < |port| ==> '0' <= port[i] <= '9' then host else host + ":" + port
  {
    PlainJudged(ip, host, port);
  }

  lemma JoinJudged(ip: IpParser, host: string, port: string)
    requires IpText(ip) && host != "" && port != "" && NoBrackets(host) && ':' !in port
    requires Lower(host) && Lower(port) && Trimmed(host) && !IsSpace(port[|port| - 1])
    ensures NormalizeHost(ip, JoinHostPort(host, port)) == host <==> ':' in host || Strippable(port)
  {
    JoinSettled(host, port);
    if ':' in host {
      BracketedJudged(ip, JoinHostPort(host, port), host, port);
    } else {
      PlainJudged(ip, host, port);
      assert |host + ":" + port| > |host|;
    }
  }

  /** Case and blank text around a host or target never matter. */
  lemma CaseAndSpaceIgnored(ip: IpParser, raw: string)
    ensures NormalizeHost(ip, raw) == NormalizeHost(ip, ToLower(TrimSpace(raw)))
    ensures NormalizeTarget(raw) == NormalizeTarget(ToLower(TrimSpace(raw)))
  {
    hide TrimSpace, ToLower, Lower, Trimmed, NormalizeHost, NormalizeTarget;
    LoweredTrimmed(raw);
    Settles(ToLower(TrimSpace(raw)));
    SameText(ip, raw, ToLower(TrimSpace(raw)));
  }

  lemma SameText(ip: IpParser, a: string, b: string)
    requires ToLower(TrimSpace(a)) == ToLower(TrimSpace(b))
    ensures NormalizeHost(ip, a) == NormalizeHost(ip, b) && NormalizeTarget(a) == NormalizeTarget(b)
  {
    hide TrimSpace, ToLower, SplitTarget, JoinHostPort, IndexOf, LastIndexOf, Strippable;
  }

  lemma LowerOfTrimmed(s: string)
    requires Trimmed(s)
    ensures Lower(ToLower(s)) && Trimmed(ToLower(s))
  {
  }

  lemma LoweredTrimmed(raw: string)
    ensures Lower(ToLower(TrimSpace(raw))) && Trimmed(ToLower(TrimSpace(raw)))
  {
    hide Lower, Trimmed, ToLower, TrimSpace;
    TrimSpaceTrims(raw);
    LowerOfTrimmed(TrimSpace(raw));
  }

  lemma DialledSettled(raw: string)
    requires Clean(raw)
    ensures var (host, port) := SplitTarget(ToLower(TrimSpace(raw)));
            Lower(host) && Lower(port) && (port != "" ==> !IsSpace(port[|port| - 1]))
  {
    hide SplitTarget, Lower, Trimmed, Clean, ToLower, TrimSpace, IsSpace;
    LoweredTrimmed(raw);
    PartsSettled(ToLower(TrimSpace(raw)));
  }

  lemma StrippableDigits(port: string)
    ensures Strippable(port) <==> |port| <= 5 && forall i :: 0 <= i < |port| ==> '0' <= port[i] <= '9'
  {
  }

  /** The target that is judged and dialled, with what is known of its parts. */
  lemma TargetJoined(raw: string)
    requires Clean(raw)
    ensures var host, port := DialledHost(raw), if DialledPort(raw) == "" then "443" else DialledPort(raw);
            && NormalizeTarget(raw) == JoinHostPort(host, port)
            && host != "" && NoBrackets(host) && Trimmed(host) && Lower(host)
            && ':' !in port && Lower(port) && port != "" && !IsSpace(port[|port| - 1]) && NoBrackets(port)
  {
    hide SplitTarget, NoBrackets, Lower, IsSpace, Trimmed, ToLower, TrimSpace, JoinHostPort;
    DialledSettled(raw);
    DefaultPort();
    NothingToSplit();
  }

  lemma DefaultPort()
    ensures var p := "443"; NoBrackets(p) && ':' !in p && Lower(p) && !IsSpace(p[|p| - 1])
  {
  }

  lemma NothingToSplit()
    ensures SplitTarget("") == ("", "")
  {
  }

  /** The connection goes to the host and port that the target was split into. */
  lemma DialledAsSplit(raw: string)
    requires Clean(raw)
    ensures SplitTarget(NormalizeTarget(raw)) == (DialledHost(raw), if DialledPort(raw) == "" then "443" else DialledPort(raw))
  {
    hide Clean, SplitTarget, NormalizeTarget, JoinHostPort, DialledHost, DialledPort, Lower, Trimmed, IsSpace, NoBrackets;
    TargetJoined(raw);
    JoinSplits(DialledHost(raw), if DialledPort(raw) == "" then "443" else DialledPort(raw));
  }

  lemma JudgedParts(ip: IpParser, raw: string, host: string, port: string)
    requires IpText(ip) && Clean(raw) && host == DialledHost(raw)
    requires port == if DialledPort(raw) == "" then "443" else DialledPort(raw)
    ensures NormalizeHost(ip, NormalizeTarget(raw)) == host <==> ':' in host || Strippable(port)
  {
    hide IpText, Clean, SplitTarget, NormalizeHost, NormalizeTarget, JoinHostPort, DialledHost, DialledPort, Strippable,
      Lower, IsSpace, Trimmed, NoBrackets;
    TargetJoined(raw);
    JoinJudged(ip, host, port);
  }

  /** CONNECT: the host that is judged is the host that is dialled exactly when the host
      contains a colon or the port is one that judging strips. */
  lemma JudgedIsDialled(ip: IpParser, raw: string)
    requires IpText(ip) && Clean(raw)
    ensures NormalizeHost(ip, NormalizeTarget(raw)) == DialledHost(raw)
            <==> ':' in DialledHost(raw)
                 || (|DialledPort(raw)| <= 5
                     && forall i :: 0 <= i < |DialledPort(raw)| ==> '0' <= DialledPort(raw)[i] <= '9')
  {
    var host, port := DialledHost(raw), DialledPort(raw);
    assert port == "" ==> Strippable("443");
    hide IpText, Clean, SplitTarget, NormalizeHost, NormalizeTarget, JoinHostPort, DialledHost, DialledPort, Strippable;
    StrippableDigits(port);
    JudgedParts(ip, raw, host, if port == "" then "443" else port);
  }

  /** The other case: a plain host with a port that judging does not strip is dialled, but
      judged together with its port. */
  lemma UnstrippedPortJudged(ip: IpParser, host: string, port: string)
    requires IpText(ip) && host != "" && NoBrackets(host) && NoBrackets(port) && ':' !in host && ':' !in port
    requires Lower(host) && Lower(port) && Trimmed(host) && port != "" && !IsSpace(port[|port| - 1])
    requires |port| > 5 || exists i :: 0 <= i < |port| && !('0' <= port[i] <= '9')
    ensures var raw := host + ":" + port;
            && Clean(raw) && DialledHost(raw) == host && DialledPort(raw) == port
            && NormalizeHost(ip, NormalizeTarget(raw)) == raw != host
  {
    var raw := host + ":" + port;
    JoinSplits(host, port);
    JoinSettled(host, port);
    Settles(raw);
    PlainJudged(ip, host, port);
    assert |raw| > |host|;
  }

  /** For instance a numeric port of six digits. */
  lemma LongPortJudged(ip: IpParser)
    requires IpText(ip)
    ensures var raw := "example.com" + ":" + "000443";
            && Clean(raw) && DialledHost(raw) == "example.com" && NormalizeHost(ip, NormalizeTarget(raw)) == raw
  {
    var host, port := "example.com", "000443";
    assert NoBrackets(host) && ':' !in host && Lower(host) && Trimmed(host);
    assert NoBrackets(port) && ':' !in port && Lower(port) && !IsSpace(port[|port| - 1]) && !Strippable(port);
    hide NoBrackets, Lower, Trimmed, Strippable, IsSpace;
    UnstrippedPortJudged(ip, host, port);
  }

  /** The host as the rules see it: an IP literal in canonical form, anything else as it is. */
  function Canonical(ip: IpParser, host: string): string {
    if ip(host).Some? then ip(host).value else host
  }

  predicate EndsLikePort(host: string) {
    ':' in host && Strippable(host[LastIndexOf(host, ':') + 1..])
  }

  lemma HostJudgedAgain(ip: IpParser, host: string)
    requires IpText(ip) && host != "" && NoBrackets(host) && Lower(host) && Trimmed(host)
    ensures NormalizeHost(ip, host) == Canonical(ip, host) <==> ip(host).Some? || !EndsLikePort(host)
    ensures NormalizeHost(ip, Canonical(ip, host)) == Canonical(ip, host) <==> ip(host).Some? || !EndsLikePort(host)
  {
    Settles(host);
    if ip(host).Some? {
      var c := ip(host).value;
      assert Lower(c) by { assert ToLower(c) == c; }
      Settles(c);
    }
  }

  /** Evaluate normalises a second time. For a dialled host that is an IP literal, or that
      has no port-like ending, this only puts the literal in canonical form. */
  lemma EvaluateJudgesDialled(ip: IpParser, raw: string)
    requires IpText(ip) && Clean(raw)
    requires ':' in DialledHost(raw)
             || (|DialledPort(raw)| <= 5
                 && forall i :: 0 <= i < |DialledPort(raw)| ==> '0' <= DialledPort(raw)[i] <= '9')
    ensures NormalizeHost(ip, NormalizeHost(ip, NormalizeTarget(raw))) == Canonical(ip, DialledHost(raw))
            <==> ip(DialledHost(raw)).Some? || !EndsLikePort(DialledHost(raw))
  {
    JudgedIsDialled(ip, raw);
    DialledSettled(raw);
    HostJudgedAgain(ip, DialledHost(raw));
  }
}
