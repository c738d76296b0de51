/** What the user-management callbacks do to the list of users, and what they keep. */
module Users {
  import opened Wrappers
  import opened Text
  import opened StatsFlush

  datatype User = User(
    id: string, username: string, passwordHash: string, enabled: bool, role: string,
    whitelistOnly: bool, whitelist: seq<string>, blacklist: seq<string>,
    maxConns: int, dailyTrafficMB: int, stats: Counters, tokenEpoch: int)
  {
    predicate EnabledAdmin() { role == "admin" && enabled }
  }

  /** A partial update: an empty text or an absent value leaves the field alone. */
  datatype Body = Body(
    username: string, password: string, role: string, enabled: Option<bool>, whitelistOnly: Option<bool>,
    whitelist: Option<seq<string>>, blacklist: Option<seq<string>>, maxConns: Option<int>, dailyTrafficMB: Option<int>)

  datatype Error = DuplicateName | LastAdmin | NotFound | SaveFailed

  datatype Command =
    | Create(user: User)
    | Edit(id: string, body: Body, hash: string)
    | Delete(id: string)
    | SetPassword(id: string, hash: string)
    | Import(users: seq<User>)
    | FlushStats(flight: Tallies)

  /** What the model leaves abstract: whether a pattern list compiles, whether a stored hash parses. */
  datatype Checks = Checks(patternsOk: seq<string> -> bool, hashOk: string -> bool)

  // ---- lookups by search ----

  function IndexOfId(us: seq<User>, id: string): (i: int)
    ensures -1 <= i < |us|
    ensures i >= 0 ==> us[i].id == id && forall j :: 0 <= j < i ==> us[j].id != id
    ensures i < 0 ==> forall j :: 0 <= j < |us| ==> us[j].id != id
  {
    if us == [] then -1
    else if us[0].id == id then 0
    else var i := IndexOfId(us[1..], id); if i < 0 then -1 else i + 1
  }

  function IndexOfName(us: seq<User>, name: string): (i: int)
    ensures -1 <= i < |us|
    ensures i >= 0 ==> EqualFold(us[i].username, name) && forall j :: 0 <= j < i ==> !EqualFold(us[j].username, name)
    ensures i < 0 ==> forall j :: 0 <= j < |us| ==> !EqualFold(us[j].username, name)
  {
    if us == [] then -1
    else if EqualFold(us[0].username, name) then 0
    else var i := IndexOfName(us[1..], name); if i < 0 then -1 else i + 1
  }

  function SearchId(us: seq<User>, id: string): Option<User> {
    var i := IndexOfId(us, id); if i < 0 then None else Some(us[i])
  }

  function SearchName(us: seq<User>, name: string): Option<User> {
    var i := IndexOfName(us, name); if i < 0 then None else Some(us[i])
  }

  predicate NameTaken(us: seq<User>, name: string, exceptId: string) {
    exists i :: 0 <= i < |us| && us[i].id != exceptId && EqualFold(us[i].username, name)
  }

  predicate OtherAdmin(us: seq<User>, exceptId: string) {
    exists i :: 0 <= i < |us| && us[i].id != exceptId && us[i].EnabledAdmin()
  }

  // ---- the callbacks ----

  function Rename(u: User, b: Body): User { if b.username != "" then u.(username := b.username) else u }

  function ApplyFields(u: User, b: Body, hash: string): User {
    u.(role := if b.role != "" then b.role else u.role,
       whitelistOnly := if b.whitelistOnly.Some? then b.whitelistOnly.value else u.whitelistOnly,
       whitelist := if b.whitelist.Some? then b.whitelist.value else u.whitelist,
       blacklist := if b.blacklist.Some? then b.blacklist.value else u.blacklist,
       maxConns := if b.maxConns.Some? then b.maxConns.value else u.maxConns,
       dailyTrafficMB := if b.dailyTrafficMB.Some? then b.dailyTrafficMB.value else u.dailyTrafficMB,
       enabled := if b.enabled.Some? then b.enabled.value else u.enabled,
       passwordHash := if b.password != "" then hash else u.passwordHash,
       tokenEpoch := if b.password != "" then u.tokenEpoch + 1 else u.tokenEpoch)
  }

  /** The name first: the duplicate check runs between the two. */
  function ApplyBody(u: User, b: Body, hash: string): User {
    ApplyFields(Rename(u, b), b, hash)
  }

  function WithStats(us: seq<User>, flight: Tallies): (r: seq<User>)
    ensures |r| == |us|
  {
    seq(|us|, i requires 0 <= i < |us| => us[i].(stats := us[i].stats.Plus(Of(flight, us[i].id))))
  }

  /** The list the callback would leave if it had no last-admin guard, or why it fails before reaching it. */
  function Outcome(us: seq<User>, c: Command): Result<seq<User>, Error> {
    match c
    case Create(u) => if NameTaken(us, u.username, "") then Err(DuplicateName) else Ok(us + [u])
    case Edit(id, b, hash) =>
      var i := IndexOfId(us, id);
      if i < 0 then Err(NotFound)
      else
        var edited := us[i := ApplyBody(us[i], b, hash)];
        if NameTaken(edited, edited[i].username, id) then Err(DuplicateName) else Ok(edited)
    case Delete(id) =>
      var i := IndexOfId(us, id);
      if i < 0 then Err(NotFound) else Ok(us[..i] + us[i + 1..])
    case SetPassword(id, hash) =>
      var i := IndexOfId(us, id);
      if i < 0 then Err(NotFound) else Ok(us[i := us[i].(passwordHash := hash, tokenEpoch := us[i].tokenEpoch + 1)])
    case Import(users) => Ok(users)
    case FlushStats(flight) => Ok(WithStats(us, flight))
  }

  /** When the guards of Edit and Delete refuse. */
  predicate Guarded(us: seq<User>, c: Command) {
    match c
    case Edit(id, b, hash) =>
      var i := IndexOfId(us, id);
      i >= 0 && !ApplyBody(us[i], b, hash).EnabledAdmin() && !OtherAdmin(us, id)
    case Delete(id) =>
      var i := IndexOfId(us, id);
      i >= 0 && us[i].EnabledAdmin() && !OtherAdmin(us, id)
    case _ => false
  }

  function Perform(us: seq<User>, c: Command): Result<seq<User>, Error> {
    var r := Outcome(us, c);
    if r.Ok? && Guarded(us, c) then Err(LastAdmin) else r
  }

  // ---- what each callback does ----

  /** Everything about the user but its password. */
  predicate SameButPassword(a: User, b: User) {
    && a.id == b.id && a.username == b.username && a.enabled == b.enabled && a.role == b.role
    && a.whitelistOnly == b.whitelistOnly && a.whitelist == b.whitelist && a.blacklist == b.blacklist
    && a.maxConns == b.maxConns && a.dailyTrafficMB == b.dailyTrafficMB && a.stats == b.stats
  }

  /** A password change stores the hash, raises the epoch by one, and touches nothing else. */
  lemma SetPasswordExact(us: seq<User>, id: string, hash: string)
    ensures var i := IndexOfId(us, id);
            match Perform(us, SetPassword(id, hash))
            case Err(e) => e == NotFound && forall j :: 0 <= j < |us| ==> us[j].id != id
            case Ok(r) =>
              && i >= 0 && |r| == |us| && us[i].id == id
              && r[i].passwordHash == hash && r[i].tokenEpoch == us[i].tokenEpoch + 1 && SameButPassword(r[i], us[i])
              && forall j :: 0 <= j < |us| && j != i ==> r[j] == us[j]
  {
  }

  /** An edit reaches every field it names and no other: the name, role and lists only when
      given, the password together with the epoch. */
  lemma EditExact(us: seq<User>, id: string, b: Body, hash: string)
    requires Perform(us, Edit(id, b, hash)).Ok?
    ensures var i, r := IndexOfId(us, id), Perform(us, Edit(id, b, hash)).value;
            && i >= 0 && |r| == |us| && us[i].id == id && r[i].id == id
            && r[i].username == (if b.username == "" then us[i].username else b.username)
            && r[i].role == (if b.role == "" then us[i].role else b.role)
            && r[i].enabled == (if b.enabled == None then us[i].enabled else b.enabled.value)
            && r[i].whitelistOnly == (if b.whitelistOnly == None then us[i].whitelistOnly else b.whitelistOnly.value)
            && r[i].whitelist == (if b.whitelist == None then us[i].whitelist else b.whitelist.value)
            && r[i].blacklist == (if b.blacklist == None then us[i].blacklist else b.blacklist.value)
            && r[i].maxConns == (if b.maxConns == None then us[i].maxConns else b.maxConns.value)
            && r[i].dailyTrafficMB == (if b.dailyTrafficMB == None then us[i].dailyTrafficMB else b.dailyTrafficMB.value)
            && r[i].passwordHash == (if b.password == "" then us[i].passwordHash else hash)
            && r[i].tokenEpoch == us[i].tokenEpoch + (if b.password == "" then 0 else 1)
            && r[i].stats == us[i].stats
            && forall j :: 0 <= j < |us| && j != i ==> r[j] == us[j]
  {
  }

  /** A create adds the user at the end, or finds the name in use. */
  lemma CreateExact(us: seq<User>, u: User)
    requires forall i :: 0 <= i < |us| ==> us[i].id != ""
    ensures Perform(us, Create(u))
            == if exists i :: 0 <= i < |us| && ToLower(us[i].username) == ToLower(u.username) then Err(DuplicateName)
               else Ok(us + [u])
  {
    if i :| 0 <= i < |us| && ToLower(us[i].username) == ToLower(u.username) {
      assert us[i].id != "" && EqualFold(us[i].username, u.username);
    }
  }

  /** A delete takes out the one user with the ID and keeps the others in order. */
  lemma DeleteExact(us: seq<User>, id: string)
    requires UniqueIds(us) && Perform(us, Delete(id)).Ok?
    ensures var i, r := IndexOfId(us, id), Perform(us, Delete(id)).value;
            && i >= 0 && |r| == |us| - 1
            && (forall j :: 0 <= j < |r| ==> r[j] == us[if j < i then j else j + 1] && r[j].id != id)
  {
    var i, r := IndexOfId(us, id), Perform(us, Delete(id)).value;
    forall j: nat | j < |r| ensures r[j] == us[if j < i then j else j + 1] && r[j].id != id { WithoutAt(us, i, j); }
  }

  /** An import installs the users as they came; a flush adds each user's share to its counters. */
  lemma ImportAndFlushExact(us: seq<User>, users: seq<User>, flight: Tallies)
    ensures Perform(us, Import(users)) == Ok(users)
    ensures var r := Perform(us, FlushStats(flight));
            && r.Ok? && |r.value| == |us|
            && forall j :: 0 <= j < |us| ==>
                 var before, after, share := us[j].stats, r.value[j].stats, Of(flight, us[j].id);
                 && after.requests == Sum64(before.requests, share.requests)
                 && after.bytesIn == Sum64(before.bytesIn, share.bytesIn)
                 && after.bytesOut == Sum64(before.bytesOut, share.bytesOut)
                 && r.value[j] == us[j].(stats := after)
  {
  }

  /** An edit is refused as a duplicate exactly when its new name is another user's. */
  lemma EditDuplicateExact(us: seq<User>, id: string, b: Body, hash: string)
    requires Sound(us) && IndexOfId(us, id) >= 0
    ensures var name := if b.username == "" then us[IndexOfId(us, id)].username else b.username;
            Perform(us, Edit(id, b, hash)) == Err(DuplicateName)
            <==> exists j :: 0 <= j < |us| && us[j].id != id && ToLower(us[j].username) == ToLower(name)
  {
    var i := IndexOfId(us, id);
    var edited := us[i := ApplyBody(us[i], b, hash)];
    var name := if b.username == "" then us[i].username else b.username;
    assert edited[i].username == name && edited[i].id == id;
    if j :| 0 <= j < |us| && us[j].id != id && ToLower(us[j].username) == ToLower(name) {
      assert edited[j] == us[j] && EqualFold(edited[j].username, name);
    }
    if NameTaken(edited, name, id) {
      var j :| 0 <= j < |edited| && edited[j].id != id && EqualFold(edited[j].username, name);
      assert us[j] == edited[j];
    }
  }

  // ---- what every state satisfies ----

  ghost predicate UniqueIds(us: seq<User>) {
    forall i, j :: 0 <= i < j < |us| ==> us[i].id != us[j].id
  }

  ghost predicate UniqueNames(us: seq<User>) {
    forall i, j :: 0 <= i < j < |us| ==> !EqualFold(us[i].username, us[j].username)
  }

  predicate HasAdmin(us: seq<User>) {
    exists i :: 0 <= i < |us| && us[i].EnabledAdmin()
  }

  ghost predicate Sound(us: seq<User>) {
    UniqueIds(us) && UniqueNames(us) && HasAdmin(us) && forall i :: 0 <= i < |us| ==> us[i].id != ""
  }

  // ---- imports ----

  predicate AlphaNum(c: char) { 'a' <= c <= 'z' || 'A' <= c <= 'Z' || '0' <= c <= '9' }

  /** The username pattern. */
  predicate ValidName(s: string) {
    && 2 <= |s| <= 64 && AlphaNum(s[0])
    && forall i :: 0 < i < |s| ==> AlphaNum(s[i]) || s[i] == '.' || s[i] == '_' || s[i] == '-'
  }

  predicate ValidUser(k: Checks, u: User) {
    && u.id != "" && ValidName(TrimSpace(u.username)) && (u.role == "user" || u.role == "admin")
    && k.hashOk(u.passwordHash) && k.patternsOk(u.whitelist) && k.patternsOk(u.blacklist)
    && 0 <= u.maxConns <= 100000 && 0 <= u.dailyTrafficMB <= 1000000
  }

  /** The name an import is judged by. */
  function ImportKey(u: User): string { ToLower(TrimSpace(u.username)) }

  ghost predicate ValidSnapshot(k: Checks, us: seq<User>) {
    && (forall i :: 0 <= i < |us| ==> ValidUser(k, us[i]))
    && UniqueIds(us)
    && (forall i, j :: 0 <= i < j < |us| ==> ImportKey(us[i]) != ImportKey(us[j]))
    && HasAdmin(us)
  }

  /** What a handler has established before it runs its callback; a new user's random ID is taken to be fresh. */
  ghost predicate Admissible(k: Checks, us: seq<User>, c: Command) {
    match c
    case Create(u) => u.id != "" && IndexOfId(us, u.id) < 0
    case Import(users) => ValidSnapshot(k, users)
    case _ => true
  }

  /** What an import accepts, in numbers: every user has an ID, a name of 2 to 64 letters, digits,
      dots, underscores and dashes that begins with a letter or digit once trimmed, a known role,
      a hash and patterns that pass, limits in range; IDs are unique, trimmed names are unique
      without regard to case, and some admin is enabled. */
  lemma SnapshotInNumbers(k: Checks, us: seq<User>)
    ensures ValidSnapshot(k, us) <==>
              && (forall i :: 0 <= i < |us| ==>
                    var u, name := us[i], TrimSpace(us[i].username);
                    && |u.id| > 0 && 2 <= |name| <= 64
                    && (forall j :: 0 <= j < |name| ==>
                          'a' <= name[j] <= 'z' || 'A' <= name[j] <= 'Z' || '0' <= name[j] <= '9'
                          || (j > 0 && (name[j] == '.' || name[j] == '_' || name[j] == '-')))
                    && (u.role == "user" || u.role == "admin")
                    && k.hashOk(u.passwordHash) && k.patternsOk(u.whitelist) && k.patternsOk(u.blacklist)
                    && 0 <= u.maxConns <= 100_000 && 0 <= u.dailyTrafficMB <= 1_000_000)
              && (forall i, j :: 0 <= i < j < |us| ==>
                    us[i].id != us[j].id
                    && ToLower(TrimSpace(us[i].username)) != ToLower(TrimSpace(us[j].username)))
              && (exists i :: 0 <= i < |us| && us[i].role == "admin" && us[i].enabled)
  {
    hide TrimSpace, ToLower;
    if i :| 0 <= i < |us| && us[i].role == "admin" && us[i].enabled { assert us[i].EnabledAdmin(); }
    forall i | 0 <= i < |us| ensures ValidName(TrimSpace(us[i].username)) <==> NameInNumbers(TrimSpace(us[i].username)) {
      NameExact(TrimSpace(us[i].username));
    }
  }

  predicate NameInNumbers(name: string) {
    && 2 <= |name| <= 64
    && forall j :: 0 <= j < |name| ==>
         'a' <= name[j] <= 'z' || 'A' <= name[j] <= 'Z' || '0' <= name[j] <= '9'
         || (j > 0 && (name[j] == '.' || name[j] == '_' || name[j] == '-'))
  }

  lemma NameExact(name: string)
    ensures ValidName(name) <==> NameInNumbers(name)
  {
  }

  lemma {:induction false} TrimLeftLower(s: string)
    ensures TrimLeft(ToLower(s)) == ToLower(TrimLeft(s))
  {
    if s != [] && IsSpace(s[0]) {
      assert ToLower(s)[1..] == ToLower(s[1..]);
      TrimLeftLower(s[1..]);
    }
  }

  lemma {:induction false} TrimRightLower(s: string)
    ensures TrimRight(ToLower(s)) == ToLower(TrimRight(s))
  {
    if s != [] && IsSpace(s[|s| - 1]) {
      assert ToLower(s)[..|s| - 1] == ToLower(s[..|s| - 1]);
      TrimRightLower(s[..|s| - 1]);
    }
  }

  /** An import is judged on trimmed names but stores the raw ones; they stay distinct all the same. */
  lemma RawNamesDistinct(a: User, b: User)
    requires ImportKey(a) != ImportKey(b)
    ensures !EqualFold(a.username, b.username)
  {
    TrimLeftLower(a.username);
    TrimLeftLower(b.username);
    TrimRightLower(TrimLeft(a.username));
    TrimRightLower(TrimLeft(b.username));
  }

  lemma SnapshotSound(k: Checks, us: seq<User>)
    requires ValidSnapshot(k, us)
    ensures Sound(us)
  {
    forall i, j | 0 <= i < j < |us| ensures !EqualFold(us[i].username, us[j].username) {
      RawNamesDistinct(us[i], us[j]);
    }
  }

  lemma TrimKeepsLength(s: string)
    ensures |TrimLeft(s)| == |s| ==> TrimLeft(s) == s
    ensures |TrimRight(s)| == |s| ==> TrimRight(s) == s
  {
  }

  /** The raw spelling matters: an imported user answers to the name it was validated by
      exactly when that name had no spaces around it. */
  lemma FoundByValidatedName(k: Checks, us: seq<User>, i: nat)
    requires ValidSnapshot(k, us) && i < |us|
    ensures SearchName(us, TrimSpace(us[i].username)) == Some(us[i]) <==> Trimmed(us[i].username)
  {
    SnapshotSound(k, us);
    var name := us[i].username;
    TrimSpaceTrims(name);
    TrimKeepsLength(name);
    TrimKeepsLength(TrimLeft(name));
    if Trimmed(name) {
      var j := IndexOfName(us, name);
      assert EqualFold(us[i].username, name);
      assert j == i;
    }
  }

  lemma TrimPadded(name: string)
    requires ValidName(name)
    ensures Trimmed(name) && TrimSpace(" " + name) == name && !Trimmed(" " + name)
  {
    TrimSpaceTrims(name);
    assert (" " + name)[1..] == name;
    assert TrimLeft(" " + name) == name;
  }

  lemma PaddedDiffers(name: string)
    ensures !EqualFold(" " + name, name)
  {
    assert |ToLower(" " + name)| != |ToLower(name)|;
  }

  lemma OnlyUser(k: Checks, u: User)
    requires ValidUser(k, u) && u.EnabledAdmin()
    ensures ValidSnapshot(k, [u])
  {
    hide ValidUser, ImportKey;
    assert [u][0].EnabledAdmin();
  }

  lemma PaddedValid(k: Checks, v: User)
    requires ValidUser(k, v) && ValidName(v.username)
    ensures ValidUser(k, v.(username := " " + v.username))
  {
    TrimPadded(v.username);
    hide TrimSpace, ValidName;
  }

  /** For any valid admin, the same user with a space before its name is accepted by an import
      and not found under the name. */
  lemma PaddedNameMissed(k: Checks, v: User)
    requires ValidUser(k, v) && ValidName(v.username) && v.EnabledAdmin()
    ensures var u := v.(username := " " + v.username);
            ValidSnapshot(k, [u]) && SearchName([u], v.username) == None
  {
    hide ValidUser, ValidSnapshot, EqualFold, ValidName;
    PaddedValid(k, v);
    OnlyUser(k, v.(username := " " + v.username));
    PaddedDiffers(v.username);
  }

  // ---- every command keeps the state sound ----

  lemma EditSound(us: seq<User>, c: Command)
    requires Sound(us) && c.Edit? && Perform(us, c).Ok?
    ensures Sound(Perform(us, c).value)
  {
    var i, r := IndexOfId(us, c.id), Perform(us, c).value;
    forall j, m | 0 <= j < m < |r| ensures !EqualFold(r[j].username, r[m].username) {
      if j == i { assert r[m].id != c.id; } else if m == i { assert r[j].id != c.id; }
    }
    if r[i].EnabledAdmin() {
    } else {
      var j :| 0 <= j < |us| && us[j].id != c.id && us[j].EnabledAdmin();
      assert r[j].EnabledAdmin();
    }
  }

  /** The list without position i: later users move up by one. */
  lemma WithoutAt(us: seq<User>, i: nat, j: nat)
    requires i < |us| && j < |us| - 1
    ensures (us[..i] + us[i + 1..])[j] == us[if j < i then j else j + 1]
  {
  }

  lemma DeleteSound(us: seq<User>, c: Command)
    requires Sound(us) && c.Delete? && Perform(us, c).Ok?
    ensures Sound(Perform(us, c).value)
  {
    var i: nat, r := IndexOfId(us, c.id), Perform(us, c).value;
    forall j: nat | j < |r| ensures r[j] == us[if j < i then j else j + 1] { WithoutAt(us, i, j); }
    forall j, m | 0 <= j < m < |r| ensures r[j].id != r[m].id && !EqualFold(r[j].username, r[m].username) {
      var j', m' := if j < i then j else j + 1, if m < i then m else m + 1;
      assert j' < m';
    }
    var a :| 0 <= a < |us| && us[a].EnabledAdmin() && us[a].id != c.id;
    assert r[if a < i then a else a - 1].EnabledAdmin();
  }

  /** Every successful callback keeps IDs unique, names unique without regard to case, and
      at least one enabled admin. */
  lemma PerformSound(k: Checks, us: seq<User>, c: Command)
    requires Sound(us) && Admissible(k, us, c) && Perform(us, c).Ok?
    ensures Sound(Perform(us, c).value)
  {
    var r := Perform(us, c).value;
    match c
    case Create(u) =>
      var i :| 0 <= i < |us| && us[i].EnabledAdmin();
      assert r[i].EnabledAdmin();
      forall j | 0 <= j < |us| ensures !EqualFold(us[j].username, u.username) { assert us[j].id != ""; }
    case Edit(_, _, _) => EditSound(us, c);
    case Delete(_) => DeleteSound(us, c);
    case SetPassword(_, _) =>
      var i :| 0 <= i < |us| && us[i].EnabledAdmin();
      assert r[i].EnabledAdmin();
    case Import(users) => SnapshotSound(k, users);
    case FlushStats(_) =>
      var i :| 0 <= i < |us| && us[i].EnabledAdmin();
      assert r[i].EnabledAdmin();
  }

  /** errLastAdmin is raised exactly when the callback would otherwise succeed and leave no
      enabled admin. */
  lemma LastAdminExact(k: Checks, us: seq<User>, c: Command)
    requires Sound(us) && Admissible(k, us, c)
    ensures Perform(us, c) == Err(LastAdmin) <==> Outcome(us, c).Ok? && !HasAdmin(Outcome(us, c).value)
    ensures Perform(us, c).Ok? ==> Perform(us, c) == Outcome(us, c)
                                   && exists i :: 0 <= i < |Perform(us, c).value| && Perform(us, c).value[i].role == "admin"
                                                  && Perform(us, c).value[i].enabled
  {
    var o := Outcome(us, c);
    if o.Ok? {
      var r := o.value;
      if Guarded(us, c) {
        var i := IndexOfId(us, c.id);
        assert forall j :: 0 <= j < |r| && r[j].EnabledAdmin() ==> r[j].id == c.id;
        assert c.Edit? ==> r[i].id == c.id;
        forall j | 0 <= j < |r| ensures !r[j].EnabledAdmin() {
          if c.Delete? { assert r[j] == us[if j < i then j else j + 1]; }
        }
      } else {
        PerformSound(k, us, c);
      }
    }
  }
}
