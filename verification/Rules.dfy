/** The rules engine: patterns compiled into rules, and the decision over the compiled
    lists against the policy as written. IP and CIDR parsing are parameters. */
module Rules {
  import opened Wrappers
  import opened Text
  import opened Hosts
  import opened Globs
  import opened Sequences

  datatype Net = Net(ip: IpParser, isCidr: string -> bool, contains: (string, string) -> bool)

  /** A compiled rule; exactly one of the four targets is set. */
  datatype Rule = Rule(pattern: string, exact: string, suffix: string, regex: Option<string>, cidr: Option<string>)

  // ---- domains ----

  /** The labels of base are the last labels of host. */
  ghost predicate UnderDomain(host: string, base: string) { Tail(Split(base, '.'), Split(host, '.')) }

  lemma SuffixGoesUnder(host: string, base: string)
    requires HasSuffix(host, "." + base)
    ensures UnderDomain(host, base)
  {
    var a := host[..|host| - |base| - 1];
    assert host == a + "." + base;
    SplitAround(a, base, '.');
  }

  lemma UnderHasSuffix(host: string, base: string)
    requires UnderDomain(host, base)
    ensures host == base || HasSuffix(host, "." + base)
  {
    hide Split, Join;
    var h, b := Split(host, '.'), Split(base, '.');
    var x := h[..|h| - |b|];
    assert h == x + b;
    JoinOfSplit(host, '.');
    JoinOfSplit(base, '.');
    if x == [] {
      assert h == b;
    } else {
      JoinConcat(x, b, '.');
      EndsWith(host, Join(x, '.'), base);
    }
  }

  lemma EndsWith(host: string, a: string, base: string)
    requires host == a + "." + base
    ensures HasSuffix(host, "." + base)
  {
    assert host[|a|..] == "." + base;
  }

  /** The suffix test on text is the label test: the domain itself or anything below it. */
  lemma SuffixIsUnderDomain(host: string, base: string)
    ensures host == base || HasSuffix(host, "." + base) <==> UnderDomain(host, base)
  {
    if HasSuffix(host, "." + base) { SuffixGoesUnder(host, base); }
    if UnderDomain(host, base) { UnderHasSuffix(host, base); }
  }

  // ---- patterns ----

  predicate ValidDomainPart(s: string) {
    && s != "" && |s| <= 253
    && forall i :: 0 <= i < |s| ==> 'a' <= s[i] <= 'z' || '0' <= s[i] <= '9' || s[i] == '.' || s[i] == '-' || s[i] == '_'
  }

  predicate Wild(p: string) { '*' in p || '?' in p }

  function CompilePattern(net: Net, raw: string): Result<Rule, string> {
    var r := Rule(raw, "", "", None, None);
    var p := ToLower(TrimSpace(raw));
    if p == "" then Err("empty pattern")
    else if HasPrefix(p, "*.") then
      if ValidDomainPart(p[2..]) then Ok(r.(suffix := p[2..])) else Err("bad wildcard base")
    else if Wild(p) then Ok(r.(regex := Some("^" + Body(p) + "$")))
    else if net.isCidr(p) then Ok(r.(cidr := Some(p)))
    else if net.ip(p).Some? then Ok(r.(exact := net.ip(p).value))
    else if ValidDomainPart(p) then Ok(r.(exact := p))
    else Err("unrecognized pattern")
  }

  predicate Matches(net: Net, r: Rule, host: string) {
    if r.exact != "" then host == r.exact
    else if r.suffix != "" then host == r.suffix || HasSuffix(host, "." + r.suffix)
    else if r.regex.Some? then Parse(r.regex.value).Some? && MatchString(Parse(r.regex.value).value, host)
    else r.cidr.Some? && net.ip(host).Some? && net.contains(r.cidr.value, host)
  }

  /** What a pattern is documented to match. */
  ghost predicate Means(net: Net, raw: string, host: string) {
    var p := ToLower(TrimSpace(raw));
    if HasPrefix(p, "*.") then UnderDomain(host, p[2..])
    else if Wild(p) then GlobMatches(p, host, false)
    else if net.isCidr(p) then net.ip(host).Some? && net.contains(p, host)
    else host == Canonical(net.ip, p)
  }

  predicate Accepted(net: Net, raw: string) { CompilePattern(net, raw).Ok? }

  /** Which patterns compile: anything with a wildcard but a malformed `*.base`, and whatever
      is a CIDR block, an IP literal or a domain name. */
  lemma AcceptedExactly(net: Net, raw: string)
    ensures var p := ToLower(TrimSpace(raw));
            Accepted(net, raw) <==>
              p != "" && (HasPrefix(p, "*.") ==> ValidDomainPart(p[2..]))
              && (Wild(p) || net.isCidr(p) || net.ip(p).Some? || ValidDomainPart(p))
  {
    var p := ToLower(TrimSpace(raw));
    if HasPrefix(p, "*.") { assert p[0] == '*'; }
  }

  /** An ordinary domain, lower-case letters, digits, dots, dashes and underscores of at most
      253 bytes, compiles and matches itself alone; after `*.` it matches what is under it. */
  lemma DomainListed(net: Net, d: string, host: string)
    requires 0 < |d| <= 253 && net.ip(d).None? && !net.isCidr(d)
    requires forall i :: 0 <= i < |d| ==>
               'a' <= d[i] <= 'z' || '0' <= d[i] <= '9' || d[i] == '.' || d[i] == '-' || d[i] == '_'
    ensures Accepted(net, d) && (Listed(net, [d], host) <==> host == d)
    ensures Accepted(net, "*." + d) && (Listed(net, ["*." + d], host) <==> UnderDomain(host, d))
  {
    DomainSettled(d);
    OneListed(net, d, host);
    OneListed(net, "*." + d, host);
    assert ("*." + d)[2..] == d && ("*." + d)[0] == '*';
    assert HasPrefix("*." + d, "*.");
    AcceptedExactly(net, d);
    AcceptedExactly(net, "*." + d);
  }

  lemma OneListed(net: Net, p: string, h: string)
    ensures Listed(net, [p], h) <==> Accepted(net, p) && Means(net, p, h)
  {
    hide CompilePattern, Means;
    assert [p][0] == p;
  }

  lemma DomainSettled(d: string)
    requires 0 < |d| <= 253
    requires forall i :: 0 <= i < |d| ==>
               'a' <= d[i] <= 'z' || '0' <= d[i] <= '9' || d[i] == '.' || d[i] == '-' || d[i] == '_'
    ensures ToLower(TrimSpace(d)) == d && ValidDomainPart(d) && !Wild(d)
    ensures ToLower(TrimSpace("*." + d)) == "*." + d
  {
    PlainSettled(d);
    StarSettled(d);
  }

  lemma PlainSettled(d: string)
    requires ValidDomainPart(d)
    ensures ToLower(TrimSpace(d)) == d && !Wild(d)
  {
    TrimSpaceTrims(d);
    hide TrimSpace;
    assert ToLower(d) == d;
  }

  lemma StarSettled(d: string)
    requires ValidDomainPart(d)
    ensures ToLower(TrimSpace("*." + d)) == "*." + d
  {
    var w := "*." + d;
    assert w[|w| - 1] == d[|d| - 1];
    TrimSpaceTrims(w);
    hide TrimSpace;
    assert forall i :: 2 <= i < |w| ==> w[i] == d[i - 2];
    assert ToLower(w) == w;
  }

  /** Compiling a pattern preserves its meaning; on hosts without line breaks a wildcard
      stands for any text (Globs.OneLine). */
  lemma CompilePreservesMeaning(net: Net, raw: string, host: string)
    requires IpText(net.ip) && Accepted(net, raw)
    ensures Matches(net, CompilePattern(net, raw).value, host) <==> Means(net, raw, host)
  {
    var p := ToLower(TrimSpace(raw));
    if HasPrefix(p, "*.") {
      SuffixIsUnderDomain(host, p[2..]);
    } else if Wild(p) {
      GlobExact(p, host);
    }
  }

  // ---- lists ----

  function CompileList(net: Net, ps: seq<string>): seq<Rule> {
    if ps == [] then []
    else
      var c, before := CompilePattern(net, ps[|ps| - 1]), CompileList(net, ps[..|ps| - 1]);
      if c.Ok? then before + [c.value] else before
  }

  /** The first rule that matches. */
  function MatchAny(net: Net, rules: seq<Rule>, h: string): (r: Option<Rule>)
    ensures r.Some? ==> r.value in rules && Matches(net, r.value, h)
    ensures r.None? ==> forall x :: x in rules ==> !Matches(net, x, h)
  {
    if rules == [] then None
    else if Matches(net, rules[0], h) then Some(rules[0])
    else MatchAny(net, rules[1..], h)
  }

  /** It is the first in the order of the list. */
  lemma {:induction false} FirstMatch(net: Net, rules: seq<Rule>, h: string) returns (i: nat)
    requires MatchAny(net, rules, h).Some?
    ensures i < |rules| && MatchAny(net, rules, h) == Some(rules[i]) && Matches(net, rules[i], h)
    ensures forall j :: 0 <= j < i ==> !Matches(net, rules[j], h)
  {
    hide Matches;
    if Matches(net, rules[0], h) {
      i := 0;
    } else {
      i := FirstMatch(net, rules[1..], h);
      i := i + 1;
    }
  }

  /** The host is matched by some pattern of the list; patterns that do not compile count for nothing. */
  ghost predicate Listed(net: Net, ps: seq<string>, h: string) {
    exists i :: 0 <= i < |ps| && Accepted(net, ps[i]) && Means(net, ps[i], h)
  }

  predicate Usable(net: Net, ps: seq<string>) {
    exists i :: 0 <= i < |ps| && Accepted(net, ps[i])
  }

  predicate CompilesTo(net: Net, ps: seq<string>, x: Rule) {
    exists i :: 0 <= i < |ps| && CompilePattern(net, ps[i]) == Ok(x)
  }

  lemma {:induction false} CompiledRules(net: Net, ps: seq<string>, x: Rule)
    ensures x in CompileList(net, ps) <==> CompilesTo(net, ps, x)
  {
    hide CompilePattern;
    if ps != [] {
      var before, last := ps[..|ps| - 1], ps[|ps| - 1];
      CompiledRules(net, before, x);
      PrefixCompiles(net, before, last, x);
      assert ps == before + [last];
    }
  }

  lemma PrefixCompiles(net: Net, before: seq<string>, last: string, x: Rule)
    ensures CompilesTo(net, before + [last], x) <==> CompilesTo(net, before, x) || CompilePattern(net, last) == Ok(x)
  {
    hide CompilePattern;
    var ps := before + [last];
    if i :| 0 <= i < |before| && CompilePattern(net, before[i]) == Ok(x) {
      assert ps[i] == before[i];
    }
    if CompilePattern(net, last) == Ok(x) {
      assert ps[|before|] == last;
    }
  }

  lemma {:induction false} CompiledEmpty(net: Net, ps: seq<string>)
    ensures |CompileList(net, ps)| > 0 <==> Usable(net, ps)
  {
    hide CompilePattern;
    if ps != [] {
      var before := ps[..|ps| - 1];
      CompiledEmpty(net, before);
      if i :| 0 <= i < |before| && Accepted(net, before[i]) { assert Accepted(net, ps[i]); }
    }
  }

  lemma ListMatches(net: Net, ps: seq<string>, h: string)
    requires IpText(net.ip)
    ensures MatchAny(net, CompileList(net, ps), h).Some? <==> Listed(net, ps, h)
  {
    var m := MatchAny(net, CompileList(net, ps), h);
    if m.Some? {
      CompiledRules(net, ps, m.value);
      var i :| 0 <= i < |ps| && CompilePattern(net, ps[i]) == Ok(m.value);
      CompilePreservesMeaning(net, ps[i], h);
    }
    if i :| 0 <= i < |ps| && Accepted(net, ps[i]) && Means(net, ps[i], h) {
      CompilePreservesMeaning(net, ps[i], h);
      CompiledRules(net, ps, CompilePattern(net, ps[i]).value);
    }
  }

  // ---- the decision ----

  datatype UserRow = UserRow(id: string, whitelist: seq<string>, blacklist: seq<string>)

  /** The rule settings of a configuration. */
  datatype Policy = Policy(whitelistOnly: bool, whitelist: seq<string>, blacklist: seq<string>, users: seq<UserRow>)

  datatype UserRules = UserRules(whitelist: seq<Rule>, blacklist: seq<Rule>)

  datatype Compiled = Compiled(whitelistOnly: bool, black: seq<Rule>, white: seq<Rule>, users: map<string, UserRules>)

  /** Who asks: the ID and flag of a user object; None when proxy authentication is off. */
  datatype Caller = Caller(id: string, whitelistOnly: bool)

  datatype Decision = Decision(allowed: bool, matched: string)

  function CompileUsers(net: Net, us: seq<UserRow>): map<string, UserRules> {
    if us == [] then map[]
    else
      var u := us[|us| - 1];
      CompileUsers(net, us[..|us| - 1])[u.id := UserRules(CompileList(net, u.whitelist), CompileList(net, u.blacklist))]
  }

  function Compile(net: Net, p: Policy): Compiled {
    Compiled(p.whitelistOnly, CompileList(net, p.blacklist), CompileList(net, p.whitelist), CompileUsers(net, p.users))
  }

  function WhitelistGate(net: Net, h: string, ur: UserRules, globalWhite: seq<Rule>): Decision {
    var u, g := MatchAny(net, ur.whitelist, h), MatchAny(net, globalWhite, h);
    if u.Some? then Decision(true, u.value.pattern)
    else if g.Some? then Decision(true, g.value.pattern)
    else Decision(false, "")
  }

  function Decide(net: Net, e: Compiled, caller: Option<Caller>, host: string): Decision {
    var h := NormalizeHost(net.ip, host);
    var black := MatchAny(net, e.black, h);
    if h == "" then Decision(false, "")
    else if black.Some? then Decision(false, black.value.pattern)
    else if caller.None? || caller.value.id !in e.users then
      if e.whitelistOnly || |e.white| > 0 then WhitelistGate(net, h, UserRules([], []), e.white) else Decision(true, "")
    else
      var ur := e.users[caller.value.id];
      var mine := MatchAny(net, ur.blacklist, h);
      if mine.Some? then Decision(false, mine.value.pattern)
      else if e.whitelistOnly || caller.value.whitelistOnly || |e.white| > 0 || |ur.whitelist| > 0 then
        WhitelistGate(net, h, ur, e.white)
      else Decision(true, "")
  }

  /** The last row of an ID: later rows replace earlier ones. */
  function RowOf(us: seq<UserRow>, id: string): Option<UserRow> {
    if us == [] then None else if us[|us| - 1].id == id then Some(us[|us| - 1]) else RowOf(us[..|us| - 1], id)
  }

  lemma {:induction false} CompiledRow(net: Net, us: seq<UserRow>, id: string)
    ensures match RowOf(us, id)
            case None => id !in CompileUsers(net, us)
            case Some(u) => id in CompileUsers(net, us)
                            && CompileUsers(net, us)[id] == UserRules(CompileList(net, u.whitelist), CompileList(net, u.blacklist))
  {
    if us != [] { CompiledRow(net, us[..|us| - 1], id); }
  }

  /** The rows that concern a caller: its own if the snapshot has one, else none. */
  function Own(p: Policy, caller: Option<Caller>): Option<UserRow> {
    if caller.None? then None else RowOf(p.users, caller.value.id)
  }

  /** Whether access needs a whitelist entry. */
  predicate WhitelistMode(net: Net, p: Policy, caller: Option<Caller>) {
    || p.whitelistOnly || Usable(net, p.whitelist)
    || (Own(p, caller).Some? && (caller.value.whitelistOnly || Usable(net, Own(p, caller).value.whitelist)))
  }

  /** The policy as documented: blacklists first, then the union of the whitelists. */
  ghost predicate Permits(net: Net, p: Policy, caller: Option<Caller>, h: string) {
    var own := Own(p, caller);
    && h != ""
    && !Listed(net, p.blacklist, h)
    && (own.Some? ==> !Listed(net, own.value.blacklist, h))
    && (WhitelistMode(net, p, caller) ==>
          Listed(net, p.whitelist, h) || (own.Some? && Listed(net, own.value.whitelist, h)))
  }

  /** The engine decides as documented, for known, unknown and absent users. */
  lemma DecideIsPolicy(net: Net, p: Policy, caller: Option<Caller>, host: string)
    requires IpText(net.ip)
    ensures Decide(net, Compile(net, p), caller, host).allowed <==> Permits(net, p, caller, NormalizeHost(net.ip, host))
  {
    var h := NormalizeHost(net.ip, host);
    ListMatches(net, p.blacklist, h);
    ListMatches(net, p.whitelist, h);
    CompiledEmpty(net, p.whitelist);
    if caller.Some? {
      CompiledRow(net, p.users, caller.value.id);
      var own := Own(p, caller);
      if own.Some? {
        ListMatches(net, own.value.blacklist, h);
        ListMatches(net, own.value.whitelist, h);
        CompiledEmpty(net, own.value.whitelist);
      }
    }
  }

  /** CONNECT: the decision on a target is the policy for the host that is dialled, whenever
      that host contains a colon or its port is one that judging strips, and it is an IP
      literal or does not itself end like a port. */
  lemma ConnectDecidesDialled(net: Net, p: Policy, caller: Option<Caller>, raw: string)
    requires IpText(net.ip) && Clean(raw)
    requires ':' in DialledHost(raw)
             || (|DialledPort(raw)| <= 5
                 && forall i :: 0 <= i < |DialledPort(raw)| ==> '0' <= DialledPort(raw)[i] <= '9')
    requires net.ip(DialledHost(raw)).Some? || !EndsLikePort(DialledHost(raw))
    ensures Decide(net, Compile(net, p), caller, NormalizeHost(net.ip, NormalizeTarget(raw))).allowed
            <==> Permits(net, p, caller, Canonical(net.ip, DialledHost(raw)))
  {
    hide Decide, Compile, Permits, Clean, NormalizeTarget, NormalizeHost, DialledHost, DialledPort, Canonical;
    EvaluateJudgesDialled(net.ip, raw);
    DecideIsPolicy(net, p, caller, NormalizeHost(net.ip, NormalizeTarget(raw)));
  }

  /** A rule that matched comes from a pattern of the list that means the host. */
  lemma MatchedMeans(net: Net, ps: seq<string>, h: string)
    requires IpText(net.ip)
    ensures var m := MatchAny(net, CompileList(net, ps), h);
            m.Some? ==> m.value.pattern in ps && Means(net, m.value.pattern, h)
  {
    hide CompilePattern, Means, Matches, CompileList;
    var m := MatchAny(net, CompileList(net, ps), h);
    if m.Some? {
      CompiledRules(net, ps, m.value);
      var i :| 0 <= i < |ps| && CompilePattern(net, ps[i]) == Ok(m.value);
      CompilePreservesMeaning(net, ps[i], h);
      RuleNamesPattern(net, ps[i]);
    }
  }

  lemma RuleNamesPattern(net: Net, raw: string)
    requires Accepted(net, raw)
    ensures CompilePattern(net, raw).value.pattern == raw
  {
  }

  function BlacklistsOf(p: Policy, caller: Option<Caller>): seq<string> {
    p.blacklist + if Own(p, caller).Some? then Own(p, caller).value.blacklist else []
  }

  function WhitelistsOf(p: Policy, caller: Option<Caller>): seq<string> {
    p.whitelist + if Own(p, caller).Some? then Own(p, caller).value.whitelist else []
  }

  /** The pattern reported with a decision is one that the host matches, from a list that
      justifies the decision. */
  lemma MatchedPatternDecides(net: Net, p: Policy, caller: Option<Caller>, host: string)
    requires IpText(net.ip)
    ensures var d, h := Decide(net, Compile(net, p), caller, host), NormalizeHost(net.ip, host);
            d.matched != "" ==>
              Means(net, d.matched, h) && d.matched in if d.allowed then WhitelistsOf(p, caller) else BlacklistsOf(p, caller)
  {
    hide CompilePattern, Means, MatchAny;
    var h := NormalizeHost(net.ip, host);
    MatchedMeans(net, p.blacklist, h);
    MatchedMeans(net, p.whitelist, h);
    assert MatchAny(net, [], h).None? by { NoRules(net, h); }
    if caller.Some? {
      CompiledRow(net, p.users, caller.value.id);
      var own := Own(p, caller);
      if own.Some? {
        MatchedMeans(net, own.value.blacklist, h);
        MatchedMeans(net, own.value.whitelist, h);
      }
    }
  }

  /** Which list is named: of the blacklists the global one first, of the whitelists the
      caller's own. */
  lemma NamedListFirst(net: Net, p: Policy, caller: Option<Caller>, host: string)
    requires IpText(net.ip) && NormalizeHost(net.ip, host) != ""
    ensures var d, h, own := Decide(net, Compile(net, p), caller, host), NormalizeHost(net.ip, host), Own(p, caller);
            && (Listed(net, p.blacklist, h) ==> !d.allowed && d.matched in p.blacklist)
            && (d.allowed && d.matched != "" && own.Some? && Listed(net, own.value.whitelist, h) ==>
                  d.matched in own.value.whitelist)
  {
    hide CompilePattern, Means, MatchAny, Listed, Usable, NormalizeHost;
    var h := NormalizeHost(net.ip, host);
    ListMatches(net, p.blacklist, h);
    MatchedMeans(net, p.blacklist, h);
    if caller.Some? {
      CompiledRow(net, p.users, caller.value.id);
      var own := Own(p, caller);
      if own.Some? {
        ListMatches(net, own.value.whitelist, h);
        MatchedMeans(net, own.value.whitelist, h);
      }
    }
  }

  lemma NoRules(net: Net, h: string)
    ensures MatchAny(net, [], h).None?
  {
  }

  ghost predicate Within(a: seq<string>, b: seq<string>) { forall x :: x in a ==> x in b }

  lemma ListedWithin(net: Net, a: seq<string>, b: seq<string>, h: string)
    requires Within(a, b)
    ensures Listed(net, a, h) ==> Listed(net, b, h)
    ensures Usable(net, a) ==> Usable(net, b)
  {
    if i :| 0 <= i < |a| && Accepted(net, a[i]) {
      assert a[i] in a;
      var j :| 0 <= j < |b| && b[j] == a[i];
      assert Accepted(net, b[j]);
    }
    if i :| 0 <= i < |a| && Accepted(net, a[i]) && Means(net, a[i], h) {
      assert a[i] in a;
      var j :| 0 <= j < |b| && b[j] == a[i];
      assert Accepted(net, b[j]) && Means(net, b[j], h);
    }
  }

  /** Two policies that treat a caller alike but for longer blacklists, or longer whitelists, in the second. */
  ghost predicate Extends(p: Policy, q: Policy, caller: Option<Caller>, blacks: bool) {
    var a, b := Own(p, caller), Own(q, caller);
    && p.whitelistOnly == q.whitelistOnly
    && a.Some? == b.Some?
    && (if blacks then Within(p.blacklist, q.blacklist) && p.whitelist == q.whitelist
        else p.blacklist == q.blacklist && Within(p.whitelist, q.whitelist))
    && (a.Some? ==> if blacks then Within(a.value.blacklist, b.value.blacklist) && a.value.whitelist == b.value.whitelist
                    else a.value.blacklist == b.value.blacklist && Within(a.value.whitelist, b.value.whitelist))
  }

  /** Adding blacklist patterns never lets anything new through. */
  lemma BlacklistMonotone(net: Net, p: Policy, q: Policy, caller: Option<Caller>, h: string)
    requires Extends(p, q, caller, true)
    ensures Permits(net, q, caller, h) ==> Permits(net, p, caller, h)
  {
    ListedWithin(net, p.blacklist, q.blacklist, h);
    if Own(p, caller).Some? {
      ListedWithin(net, Own(p, caller).value.blacklist, Own(q, caller).value.blacklist, h);
    }
  }

  /** Adding whitelist patterns never shuts out a caller that was in whitelist mode. The first
      usable pattern does switch the mode on, and then decides by the new list alone. */
  lemma WhitelistMonotone(net: Net, p: Policy, q: Policy, caller: Option<Caller>, h: string)
    requires Extends(p, q, caller, false) && Permits(net, p, caller, h)
    ensures WhitelistMode(net, p, caller) ==> Permits(net, q, caller, h)
    ensures Permits(net, q, caller, h)
            <==> (WhitelistMode(net, q, caller) ==>
                    Listed(net, q.whitelist, h) || (Own(q, caller).Some? && Listed(net, Own(q, caller).value.whitelist, h)))
  {
    ListedWithin(net, p.whitelist, q.whitelist, h);
    if Own(p, caller).Some? {
      ListedWithin(net, Own(p, caller).value.whitelist, Own(q, caller).value.whitelist, h);
    }
  }

  /** What binds every decision: a blacklisted host is refused; under a whitelist flag, of the
      configuration or of the known caller, only a whitelisted one is let through; and one that
      is whitelisted and not blacklisted always is. */
  lemma ListsBind(net: Net, p: Policy, caller: Option<Caller>, host: string)
    requires IpText(net.ip) && NormalizeHost(net.ip, host) != ""
    ensures var h, allowed := NormalizeHost(net.ip, host), Decide(net, Compile(net, p), caller, host).allowed;
            var black, white := Listed(net, BlacklistsOf(p, caller), h), Listed(net, WhitelistsOf(p, caller), h);
            && (black ==> !allowed)
            && ((p.whitelistOnly || (Own(p, caller).Some? && caller.value.whitelistOnly)) && !white ==> !allowed)
            && (Usable(net, WhitelistsOf(p, caller)) && !white ==> !allowed)
            && (white && !black ==> allowed)
  {
    hide Decide, Compile, Listed, Usable, NormalizeHost, RowOf;
    var h, own := NormalizeHost(net.ip, host), Own(p, caller);
    DecideIsPolicy(net, p, caller, host);
    var black, white := if own.Some? then own.value.blacklist else [], if own.Some? then own.value.whitelist else [];
    EitherList(net, p.blacklist, black, h);
    EitherList(net, p.whitelist, white, h);
    if own.None? {
      NothingListed(net, h);
    }
  }

  /** A caller the configuration does not know is judged as if there were none, and a known one
      by the last row of its ID. */
  lemma UnknownCaller(net: Net, p: Policy, caller: Caller, host: string)
    requires forall i :: 0 <= i < |p.users| ==> p.users[i].id != caller.id
    ensures Decide(net, Compile(net, p), Some(caller), host) == Decide(net, Compile(net, p), None, host)
  {
    hide CompilePattern;
    CompiledRow(net, p.users, caller.id);
    NoRow(p.users, caller.id);
  }

  lemma {:induction false} NoRow(us: seq<UserRow>, id: string)
    requires forall i :: 0 <= i < |us| ==> us[i].id != id
    ensures RowOf(us, id).None?
  {
    if us != [] { NoRow(us[..|us| - 1], id); }
  }

  lemma EitherList(net: Net, a: seq<string>, b: seq<string>, h: string)
    ensures Listed(net, a + b, h) <==> Listed(net, a, h) || Listed(net, b, h)
    ensures Usable(net, a + b) <==> Usable(net, a) || Usable(net, b)
  {
    hide CompilePattern, Means;
    ListedWithin(net, a, a + b, h);
    ListedWithin(net, b, a + b, h);
    if i :| 0 <= i < |a + b| && Accepted(net, (a + b)[i]) && Means(net, (a + b)[i], h) {
      if i < |a| { assert a[i] == (a + b)[i]; } else { assert b[i - |a|] == (a + b)[i]; }
    }
    if i :| 0 <= i < |a + b| && Accepted(net, (a + b)[i]) {
      if i < |a| { assert a[i] == (a + b)[i]; } else { assert b[i - |a|] == (a + b)[i]; }
    }
  }

  /** Nobody asked for whitelist mode by a flag. */
  predicate NoFlag(p: Policy, caller: Option<Caller>) {
    !p.whitelistOnly && (Own(p, caller).Some? ==> !caller.value.whitelistOnly)
  }

  /** Whitelists none of whose patterns compile are no whitelists: for every policy and caller
      without a flag the decision is by the blacklists alone. */
  lemma UnusableWhitelistPermits(net: Net, p: Policy, caller: Option<Caller>, host: string)
    requires IpText(net.ip) && NoFlag(p, caller) && !Usable(net, WhitelistsOf(p, caller))
    ensures var h := NormalizeHost(net.ip, host);
            Decide(net, Compile(net, p), caller, host).allowed <==> h != "" && !Listed(net, BlacklistsOf(p, caller), h)
  {
    hide Decide, Compile, Listed, Usable, NormalizeHost, RowOf;
    var h, own := NormalizeHost(net.ip, host), Own(p, caller);
    DecideIsPolicy(net, p, caller, host);
    var black, white := if own.Some? then own.value.blacklist else [], if own.Some? then own.value.whitelist else [];
    EitherList(net, p.blacklist, black, h);
    EitherList(net, p.whitelist, white, h);
    if own.None? { assert !Listed(net, [], h) by { NothingListed(net, h); } }
  }

  lemma NothingListed(net: Net, h: string)
    ensures !Listed(net, [], h) && !Usable(net, [])
  {
  }

  // ---- the source's own form ----

  class RulesEngine {
    const net: Net
    var whitelistOnly: bool
    var globalBlack: seq<Rule>
    var globalWhite: seq<Rule>
    var userRules: map<string, UserRules>

    constructor (net: Net)
      ensures this.net == net && View() == Compile(net, Policy(false, [], [], []))
    {
      this.net := net;
      whitelistOnly, globalBlack, globalWhite, userRules := false, [], [], map[];
    }

    function View(): Compiled
      reads this
    {
      Compiled(whitelistOnly, globalBlack, globalWhite, userRules)
    }

    method CompileAll(patterns: seq<string>) returns (out: seq<Rule>)
      ensures out == CompileList(net, patterns)
    {
      out := [];
      for i := 0 to |patterns|
        invariant out == CompileList(net, patterns[..i])
      {
        assert patterns[..i + 1][..i] == patterns[..i];
        var r := CompilePattern(net, patterns[i]);
        if r.Err? {
          continue;
        }
        out := out + [r.value];
      }
      assert patterns[..|patterns|] == patterns;
    }

    method Rebuild(p: Policy)
      modifies this
      ensures View() == Compile(net, p)
    {
      whitelistOnly := p.whitelistOnly;
      globalBlack := CompileAll(p.blacklist);
      globalWhite := CompileAll(p.whitelist);
      userRules := map[];
      for i := 0 to |p.users|
        invariant userRules == CompileUsers(net, p.users[..i])
        invariant whitelistOnly == p.whitelistOnly
        invariant globalBlack == CompileList(net, p.blacklist) && globalWhite == CompileList(net, p.whitelist)
      {
        assert p.users[..i + 1][..i] == p.users[..i];
        var white := CompileAll(p.users[i].whitelist);
        var black := CompileAll(p.users[i].blacklist);
        userRules := userRules[p.users[i].id := UserRules(white, black)];
      }
      assert p.users[..|p.users|] == p.users;
    }

    /** Evaluate, over whatever was compiled last. */
    method Evaluate(caller: Option<Caller>, host: string, ghost p: Policy) returns (d: Decision)
      requires IpText(net.ip) && View() == Compile(net, p)
      ensures d == Decide(net, Compile(net, p), caller, host)
      ensures d.allowed <==> Permits(net, p, caller, NormalizeHost(net.ip, host))
    {
      DecideIsPolicy(net, p, caller, host);
      d := Decide(net, View(), caller, host);
    }
  }
}
