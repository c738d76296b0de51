/** The configuration store: transactional updates with rollback, a saved copy on disk, and
    two lookup indexes that are rebuilt only after a successful save. */
module Store {
  import opened Wrappers
  import opened Text
  import opened Users

  // ---- the indexes ----

  type Index = map<string, int>

  function IdIndex(us: seq<User>): Index {
    if us == [] then map[] else IdIndex(us[..|us| - 1])[us[|us| - 1].id := |us| - 1]
  }

  function NameIndex(us: seq<User>): Index {
    if us == [] then map[] else NameIndex(us[..|us| - 1])[ToLower(us[|us| - 1].username) := |us| - 1]
  }

  /** FindUser: the index is only trusted when the user it points at carries the ID. */
  function LookupId(us: seq<User>, byID: Index, id: string): (r: Option<User>)
    ensures r.Some? ==> r.value in us && r.value.id == id
  {
    if id in byID && 0 <= byID[id] < |us| && us[byID[id]].id == id then Some(us[byID[id]]) else None
  }

  function LookupName(us: seq<User>, byName: Index, name: string): (r: Option<User>)
    ensures r.Some? ==> r.value in us && EqualFold(r.value.username, name)
  {
    var k := ToLower(name);
    if k in byName && 0 <= byName[k] < |us| && EqualFold(us[byName[k]].username, name) then Some(us[byName[k]]) else None
  }

  /** The index holds the last position of every key in use, and nothing else. */
  lemma {:induction false} IdIndexExact(us: seq<User>, id: string)
    ensures if id in IdIndex(us) then 0 <= IdIndex(us)[id] < |us| && us[IdIndex(us)[id]].id == id
            else IndexOfId(us, id) < 0
  {
    if us != [] {
      IdIndexExact(us[..|us| - 1], id);
    }
  }

  lemma {:induction false} NameIndexExact(us: seq<User>, name: string)
    ensures var k := ToLower(name);
            if k in NameIndex(us) then 0 <= NameIndex(us)[k] < |us| && EqualFold(us[NameIndex(us)[k]].username, name)
            else IndexOfName(us, name) < 0
  {
    if us != [] {
      NameIndexExact(us[..|us| - 1], name);
    }
  }

  /** Over fresh indexes both lookups are searches of the list. */
  lemma FreshLookupsExact(us: seq<User>, key: string)
    requires UniqueIds(us) && UniqueNames(us)
    ensures LookupId(us, IdIndex(us), key) == SearchId(us, key)
    ensures LookupName(us, NameIndex(us), key) == SearchName(us, key)
  {
    IdIndexExact(us, key);
    NameIndexExact(us, key);
  }

  // ---- transactions ----

  /** What is in memory, what is on disk, and the indexes over the users of some earlier save. */
  datatype State = State(users: seq<User>, disk: seq<User>, byID: Index, byName: Index)

  /** One update; saveOk says whether the write to disk succeeds. A failed callback is rolled
      back; a failed save is not, and leaves the indexes as they were. */
  datatype Transaction = Transaction(c: Command, saveOk: bool)

  function Commit(s: State, t: Transaction): (State, Option<Error>) {
    var r := Perform(s.users, t.c);
    if r.Err? then (s, Some(r.error))
    else if !t.saveOk then (s.(users := r.value), Some(SaveFailed))
    else (State(r.value, r.value, IdIndex(r.value), NameIndex(r.value)), None)
  }

  function Run(s: State, ts: seq<Transaction>): State {
    if ts == [] then s else Commit(Run(s, ts[..|ts| - 1]), ts[|ts| - 1]).0
  }

  ghost predicate AllAdmissible(k: Checks, s: State, ts: seq<Transaction>) {
    forall i :: 0 <= i < |ts| ==> Admissible(k, Run(s, ts[..i]).users, ts[i].c)
  }

  /** A store just created: one enabled admin, saved and indexed. */
  ghost predicate Initial(s: State) {
    && (exists admin: User :: admin.EnabledAdmin() && admin.id != "" && s.users == [admin])
    && s.disk == s.users && s.byID == IdIndex(s.users) && s.byName == NameIndex(s.users)
  }

  lemma PrefixAdmissible(k: Checks, s: State, ts: seq<Transaction>)
    requires ts != [] && AllAdmissible(k, s, ts)
    ensures AllAdmissible(k, s, ts[..|ts| - 1])
    ensures Admissible(k, Run(s, ts[..|ts| - 1]).users, ts[|ts| - 1].c)
  {
    var init := ts[..|ts| - 1];
    forall i | 0 <= i < |init| ensures Admissible(k, Run(s, init[..i]).users, init[i].c) {
      assert init[..i] == ts[..i];
    }
  }

  /** Through every run of updates, saved, rejected or failing to save, the users in memory and
      the users on disk keep an enabled admin, unique IDs and unique names. */
  lemma {:induction false} AlwaysSound(k: Checks, s: State, ts: seq<Transaction>)
    requires Initial(s) && AllAdmissible(k, s, ts)
    ensures Sound(Run(s, ts).users) && Sound(Run(s, ts).disk)
  {
    if ts == [] {
      var admin: User :| admin.EnabledAdmin() && s.users == [admin] && admin.id != "";
      assert s.users[0].EnabledAdmin();
    } else {
      var before, t := Run(s, ts[..|ts| - 1]), ts[|ts| - 1];
      PrefixAdmissible(k, s, ts);
      AlwaysSound(k, s, ts[..|ts| - 1]);
      if Perform(before.users, t.c).Ok? { PerformSound(k, before.users, t.c); }
    }
  }

  /** After a saved update, wherever it comes in a run, the lookups are searches. */
  lemma IndexAgreement(k: Checks, s: State, ts: seq<Transaction>, key: string)
    requires Initial(s) && AllAdmissible(k, s, ts)
    requires ts != [] && Commit(Run(s, ts[..|ts| - 1]), ts[|ts| - 1]).1 == None
    ensures var e := Run(s, ts);
            && e.disk == e.users
            && LookupId(e.users, e.byID, key) == SearchId(e.users, key)
            && LookupName(e.users, e.byName, key) == SearchName(e.users, key)
  {
    AlwaysSound(k, s, ts);
    FreshLookupsExact(Run(s, ts).users, key);
  }

  predicate Rejected(s: State, t: Transaction) { Perform(s.users, t.c).Err? }

  /** The transactions of a run that were not rejected. */
  function Effective(s: State, ts: seq<Transaction>): seq<Transaction> {
    if ts == [] then []
    else
      var before, t := ts[..|ts| - 1], ts[|ts| - 1];
      Effective(s, before) + if Rejected(Run(s, before), t) then [] else [t]
  }

  /** Rejected updates can be struck from any run: memory, disk and indexes end up the same,
      also where other updates failed to save. */
  lemma {:induction false} RejectedUnobservable(s: State, ts: seq<Transaction>)
    ensures Run(s, Effective(s, ts)) == Run(s, ts)
  {
    if ts != [] {
      hide Perform;
      var before, t := ts[..|ts| - 1], ts[|ts| - 1];
      RejectedUnobservable(s, before);
      if Rejected(Run(s, before), t) {
        assert Effective(s, ts) == Effective(s, before);
      } else {
        var kept := Effective(s, before) + [t];
        assert Effective(s, ts) == kept && kept[..|kept| - 1] == Effective(s, before);
      }
    }
  }

  // ---- after a save failed ----

  /** The indexes are always those of the users last saved. */
  lemma {:induction false} IndexesAreSaved(s: State, ts: seq<Transaction>)
    requires Initial(s)
    ensures Run(s, ts).byID == IdIndex(Run(s, ts).disk) && Run(s, ts).byName == NameIndex(Run(s, ts).disk)
  {
    if ts != [] {
      hide Perform;
      IndexesAreSaved(s, ts[..|ts| - 1]);
    }
  }

  lemma IdLookupExact(us: seq<User>, saved: seq<User>, id: string)
    requires UniqueIds(us) && UniqueIds(saved)
    ensures LookupId(us, IdIndex(saved), id) == SearchId(us, id)
            <==> IndexOfId(us, id) < 0 || IndexOfId(us, id) == IndexOfId(saved, id)
  {
    IdIndexExact(saved, id);
  }

  lemma NameLookupExact(us: seq<User>, saved: seq<User>, name: string)
    requires UniqueNames(us) && UniqueNames(saved)
    ensures LookupName(us, NameIndex(saved), name) == SearchName(us, name)
            <==> IndexOfName(us, name) < 0 || IndexOfName(us, name) == IndexOfName(saved, name)
  {
    NameIndexExact(saved, name);
  }

  /** In every reachable state, also after saves that failed, a lookup equals a search of the
      users exactly when the user is not there or is where the last save had it. */
  lemma LookupsExact(k: Checks, s: State, ts: seq<Transaction>, key: string)
    requires Initial(s) && AllAdmissible(k, s, ts)
    ensures var e := Run(s, ts);
            && (LookupId(e.users, e.byID, key) == SearchId(e.users, key)
                <==> IndexOfId(e.users, key) < 0 || IndexOfId(e.users, key) == IndexOfId(e.disk, key))
            && (LookupName(e.users, e.byName, key) == SearchName(e.users, key)
                <==> IndexOfName(e.users, key) < 0 || IndexOfName(e.users, key) == IndexOfName(e.disk, key))
  {
    hide Run, LookupId, LookupName, SearchId, SearchName, IndexOfId, IndexOfName, Initial, AllAdmissible, HasAdmin;
    AlwaysSound(k, s, ts);
    IndexesAreSaved(s, ts);
    IdLookupExact(Run(s, ts).users, Run(s, ts).disk, key);
    NameLookupExact(Run(s, ts).users, Run(s, ts).disk, key);
  }

  /** For instance, a user created by an update that was not saved is missed. */
  lemma StaleIndexMisses(s: State, u: User)
    requires Initial(s) && u.id != "" && IndexOfId(s.users, u.id) < 0 && !NameTaken(s.users, u.username, "")
    ensures var e := Commit(s, Transaction(Create(u), false)).0;
            u in e.users && LookupId(e.users, e.byID, u.id) == None && LookupName(e.users, e.byName, u.username) == None
  {
    IdIndexExact(s.users, u.id);
    NameIndexExact(s.users, u.username);
    assert (s.users + [u])[|s.users|] == u;
  }

  /** The lookup before the transaction only refuses what the transaction would refuse too,
      however stale the index. */
  lemma EarlyRefusalAgrees(us: seq<User>, byName: Index, u: User)
    requires LookupName(us, byName, u.username).Some? && forall i :: 0 <= i < |us| ==> us[i].id != ""
    ensures Perform(us, Create(u)) == Err(DuplicateName)
  {
    var other := LookupName(us, byName, u.username).value;
    var i :| 0 <= i < |us| && us[i] == other;
    assert us[i].id != "";
  }

  // ---- token epochs ----

  function Epoch(us: seq<User>, id: string): Option<int> {
    var u := SearchId(us, id); if u.Some? then Some(u.value.tokenEpoch) else None
  }

  predicate ChangesPassword(c: Command, id: string) {
    match c
    case SetPassword(i, _) => i == id
    case Edit(i, b, _) => i == id && b.password != ""
    case _ => false
  }

  function PasswordChanges(s: State, ts: seq<Transaction>, id: string): nat {
    if ts == [] then 0
    else
      var before, t := ts[..|ts| - 1], ts[|ts| - 1];
      PasswordChanges(s, before, id)
      + if ChangesPassword(t.c, id) && Perform(Run(s, before).users, t.c).Ok? then 1 else 0
  }

  lemma FirstIs(us: seq<User>, id: string, i: nat)
    requires i < |us| && us[i].id == id && forall j :: 0 <= j < i ==> us[j].id != id
    ensures IndexOfId(us, id) == i
  {
  }

  lemma EpochStep(us: seq<User>, c: Command, id: string)
    requires Epoch(us, id).Some? && !c.Import? && c != Delete(id) && Perform(us, c).Ok?
    ensures Epoch(Perform(us, c).value, id)
            == Some(Epoch(us, id).value + if ChangesPassword(c, id) then 1 else 0)
  {
    match c
    case Create(u) =>
      assert Perform(us, c) == Ok(us + [u]);
      FirstIs(us + [u], id, IndexOfId(us, id));
    case Delete(gone) => DeletedCredential(us, gone, id);
    case _ =>
      hide Perform;
      KeptCredential(us, c, id);
  }

  lemma CommitEpoch(s: State, t: Transaction, id: string)
    requires Epoch(s.users, id).Some? && !t.c.Import? && t.c != Delete(id)
    ensures Epoch(Commit(s, t).0.users, id)
            == Some(Epoch(s.users, id).value + if ChangesPassword(t.c, id) && Perform(s.users, t.c).Ok? then 1 else 0)
  {
    if Perform(s.users, t.c).Ok? { EpochStep(s.users, t.c, id); }
  }

  /** While a user exists and nothing is imported, its epoch counts its password changes:
      a token issued before a change carries a smaller epoch than the user ever has again. */
  lemma {:induction false} EpochsCountChanges(s: State, ts: seq<Transaction>, id: string)
    requires Epoch(s.users, id).Some?
    requires forall i :: 0 <= i < |ts| ==> !ts[i].c.Import? && ts[i].c != Delete(id)
    ensures Epoch(Run(s, ts).users, id) == Some(Epoch(s.users, id).value + PasswordChanges(s, ts, id))
  {
    hide Epoch, Perform, ChangesPassword, Commit;
    if ts != [] {
      EpochsCountChanges(s, ts[..|ts| - 1], id);
      CommitEpoch(Run(s, ts[..|ts| - 1]), ts[|ts| - 1], id);
    }
  }

  // ---- what a user can log in with ----

  datatype Credential = Credential(hash: string, epoch: int)

  function CredentialOf(us: seq<User>, id: string): Option<Credential> {
    var u := SearchId(us, id); if u.Some? then Some(Credential(u.value.passwordHash, u.value.tokenEpoch)) else None
  }

  /** What a successful callback makes of the credential of an ID. */
  function CredentialAfter(e: Option<Credential>, c: Command, id: string): Option<Credential> {
    match c
    case Create(u) => if u.id == id then Some(Credential(u.passwordHash, u.tokenEpoch)) else e
    case Delete(gone) => if gone == id then None else e
    case SetPassword(i, hash) => if i == id && e.Some? then Some(Credential(hash, e.value.epoch + 1)) else e
    case Edit(i, b, hash) => if i == id && b.password != "" && e.Some? then Some(Credential(hash, e.value.epoch + 1)) else e
    case Import(users) => CredentialOf(users, id)
    case FlushStats(_) => e
  }

  /** The credential of an ID by the history of the run: as it was created, imported or found at
      the start, and after that with the hash of the last successful password change and one
      more epoch for each. */
  function Lineage(s: State, ts: seq<Transaction>, id: string): Option<Credential> {
    if ts == [] then CredentialOf(s.users, id)
    else
      var before, c := ts[..|ts| - 1], ts[|ts| - 1].c;
      var e := Lineage(s, before, id);
      if Perform(Run(s, before).users, c).Ok? then CredentialAfter(e, c, id) else e
  }

  lemma CreatedCredential(us: seq<User>, u: User, id: string)
    requires IndexOfId(us, u.id) < 0
    ensures CredentialOf(us + [u], id) == CredentialAfter(CredentialOf(us, id), Create(u), id)
  {
    var r, i := us + [u], IndexOfId(us, id);
    if i >= 0 { FirstIs(r, id, i); } else if u.id == id { FirstIs(r, id, |us|); }
  }

  lemma DeletedCredential(us: seq<User>, gone: string, id: string)
    requires (gone == id ==> UniqueIds(us)) && Perform(us, Delete(gone)).Ok?
    ensures CredentialOf(Perform(us, Delete(gone)).value, id) == CredentialAfter(CredentialOf(us, id), Delete(gone), id)
  {
    var i, d, r := IndexOfId(us, id), IndexOfId(us, gone), Perform(us, Delete(gone)).value;
    forall j: nat | j < |r| ensures r[j] == us[if j < d then j else j + 1] { WithoutAt(us, d, j); }
    if gone != id && i >= 0 { FirstIs(r, id, if i < d then i else i - 1); }
  }

  lemma SameIndex(us: seq<User>, r: seq<User>, id: string)
    requires |r| == |us| && forall j :: 0 <= j < |us| ==> r[j].id == us[j].id
    ensures IndexOfId(r, id) == IndexOfId(us, id)
  {
    var i := IndexOfId(us, id);
    if i >= 0 { FirstIs(r, id, i); }
  }

  lemma EditedCredential(us: seq<User>, x: string, b: Body, hash: string, id: string)
    requires Perform(us, Edit(x, b, hash)).Ok?
    ensures CredentialOf(Perform(us, Edit(x, b, hash)).value, id) == CredentialAfter(CredentialOf(us, id), Edit(x, b, hash), id)
  {
    hide Perform, IndexOfId;
    EditExact(us, x, b, hash);
    SameIndex(us, Perform(us, Edit(x, b, hash)).value, id);
  }

  lemma ChangedCredential(us: seq<User>, x: string, hash: string, id: string)
    requires Perform(us, SetPassword(x, hash)).Ok?
    ensures CredentialOf(Perform(us, SetPassword(x, hash)).value, id)
            == CredentialAfter(CredentialOf(us, id), SetPassword(x, hash), id)
  {
    hide Perform, IndexOfId;
    SetPasswordExact(us, x, hash);
    SameIndex(us, Perform(us, SetPassword(x, hash)).value, id);
  }

  lemma FlushedCredential(us: seq<User>, flight: StatsFlush.Tallies, id: string)
    ensures Perform(us, FlushStats(flight)).Ok?
    ensures CredentialOf(Perform(us, FlushStats(flight)).value, id) == CredentialOf(us, id)
  {
    hide Perform, IndexOfId;
    ImportAndFlushExact(us, [], flight);
    SameIndex(us, Perform(us, FlushStats(flight)).value, id);
  }

  lemma KeptCredential(us: seq<User>, c: Command, id: string)
    requires (c.Edit? || c.SetPassword? || c.FlushStats?) && Perform(us, c).Ok?
    ensures CredentialOf(Perform(us, c).value, id) == CredentialAfter(CredentialOf(us, id), c, id)
  {
    hide Perform, CredentialOf;
    match c {
      case Edit(x, b, hash) => EditedCredential(us, x, b, hash, id);
      case SetPassword(x, hash) => ChangedCredential(us, x, hash, id);
      case FlushStats(flight) => FlushedCredential(us, flight, id);
    }
  }

  /** IDs unique to begin with, every new ID fresh, every import valid. */
  ghost predicate WellRun(k: Checks, s: State, ts: seq<Transaction>) { Sound(s.users) && AllAdmissible(k, s, ts) }

  lemma {:induction false} StaysSound(k: Checks, s: State, ts: seq<Transaction>)
    requires WellRun(k, s, ts)
    ensures Sound(Run(s, ts).users)
  {
    if ts != [] {
      hide Perform, Sound, Admissible;
      PrefixAdmissible(k, s, ts);
      StaysSound(k, s, ts[..|ts| - 1]);
      var before, t := Run(s, ts[..|ts| - 1]), ts[|ts| - 1];
      if Perform(before.users, t.c).Ok? { PerformSound(k, before.users, t.c); }
    }
  }

  lemma CredentialStep(k: Checks, us: seq<User>, c: Command, id: string)
    requires Sound(us) && Admissible(k, us, c) && Perform(us, c).Ok?
    ensures CredentialOf(Perform(us, c).value, id) == CredentialAfter(CredentialOf(us, id), c, id)
  {
    match c
    case Create(u) =>
      CreatedCredential(us, u, id);
      assert Perform(us, c) == Ok(us + [u]);
    case Delete(gone) => DeletedCredential(us, gone, id);
    case Import(_) =>
    case _ =>
      hide Perform, Sound, CredentialOf, CredentialAfter;
      KeptCredential(us, c, id);
  }

  lemma SoundIds(us: seq<User>)
    requires Sound(us)
    ensures UniqueIds(us)
  {
  }

  lemma ShorterWellRun(k: Checks, s: State, ts: seq<Transaction>)
    requires ts != [] && WellRun(k, s, ts)
    ensures WellRun(k, s, ts[..|ts| - 1])
    ensures Admissible(k, Run(s, ts[..|ts| - 1]).users, ts[|ts| - 1].c)
  {
    hide Perform, Sound, Admissible;
    PrefixAdmissible(k, s, ts);
  }

  lemma UsersAfter(s: State, ts: seq<Transaction>)
    requires ts != []
    ensures var us, c := Run(s, ts[..|ts| - 1]).users, ts[|ts| - 1].c;
            Run(s, ts).users == if Perform(us, c).Ok? then Perform(us, c).value else us
  {
    hide Perform;
  }

  /** In every run each user carries the credential of its lineage: the hash of its last
      successful password change, or of its creation or import. */
  lemma {:induction false} CredentialIsLineage(k: Checks, s: State, ts: seq<Transaction>, id: string)
    requires WellRun(k, s, ts)
    ensures CredentialOf(Run(s, ts).users, id) == Lineage(s, ts, id)
  {
    if ts != [] {
      hide Perform, CredentialOf, Run, Admissible, CredentialAfter, WellRun, Sound;
      var init, t := ts[..|ts| - 1], ts[|ts| - 1];
      ShorterWellRun(k, s, ts);
      CredentialIsLineage(k, s, init, id);
      StaysSound(k, s, init);
      UsersAfter(s, ts);
      if Perform(Run(s, init).users, t.c).Ok? { CredentialStep(k, Run(s, init).users, t.c, id); }
    } else {
      assert Run(s, ts) == s;
    }
  }

  /** The token check: the named user is an enabled admin at the epoch of the token. */
  predicate TokenAccepted(us: seq<User>, byName: Index, name: string, epoch: int) {
    var u := LookupName(us, byName, name);
    u.Some? && u.value.EnabledAdmin() && u.value.tokenEpoch == epoch
  }

  lemma EpochOfFound(us: seq<User>, u: User)
    requires UniqueIds(us) && u in us
    ensures Epoch(us, u.id) == Some(u.tokenEpoch)
  {
    var i :| 0 <= i < |us| && us[i] == u;
    assert us[IndexOfId(us, u.id)].id == us[i].id;
  }

  lemma CredentialOfFound(us: seq<User>, u: User)
    requires UniqueIds(us) && u in us
    ensures CredentialOf(us, u.id) == Some(Credential(u.passwordHash, u.tokenEpoch))
  {
    var i :| 0 <= i < |us| && us[i] == u;
    assert us[IndexOfId(us, u.id)].id == us[i].id;
  }

  /** Exactly when a token is accepted, in any run: the user found under its name is an enabled
      admin, and the lineage of that user stands at the token's epoch. */
  lemma TokenAcceptedExactly(k: Checks, s: State, ts: seq<Transaction>, name: string, epoch: int)
    requires WellRun(k, s, ts)
    ensures var e := Run(s, ts);
            var u := LookupName(e.users, e.byName, name);
            TokenAccepted(e.users, e.byName, name, epoch)
            <==> u.Some? && u.value.role == "admin" && u.value.enabled
                 && Lineage(s, ts, u.value.id).Some? && Lineage(s, ts, u.value.id).value.epoch == epoch
  {
    hide Run, Lineage, CredentialOf, Sound, WellRun;
    var e := Run(s, ts);
    var u := LookupName(e.users, e.byName, name);
    if u.Some? {
      StaysSound(k, s, ts);
      SoundIds(e.users);
      CredentialOfFound(e.users, u.value);
      CredentialIsLineage(k, s, ts, u.value.id);
    }
  }

  /** While the user stays and the name leads to it, a token issued at the start is accepted
      exactly when the user is still an enabled admin and never changed its password. */
  lemma OldTokenExact(s: State, ts: seq<Transaction>, id: string, name: string)
    requires UniqueIds(Run(s, ts).users) && Epoch(s.users, id).Some?
    requires forall i :: 0 <= i < |ts| ==> !ts[i].c.Import? && ts[i].c != Delete(id)
    requires var u := LookupName(Run(s, ts).users, Run(s, ts).byName, name); u.Some? && u.value.id == id
    ensures var e := Run(s, ts);
            TokenAccepted(e.users, e.byName, name, Epoch(s.users, id).value)
            <==> LookupName(e.users, e.byName, name).value.EnabledAdmin() && PasswordChanges(s, ts, id) == 0
  {
    hide Run, Epoch, PasswordChanges, User.EnabledAdmin;
    EpochsCountChanges(s, ts, id);
    EpochOfFound(Run(s, ts).users, LookupName(Run(s, ts).users, Run(s, ts).byName, name).value);
  }

  /** A token issued at or before the start is refused after a password change. */
  lemma OldTokenRefused(s: State, ts: seq<Transaction>, id: string, name: string, epoch: int)
    requires UniqueIds(Run(s, ts).users)
    requires Epoch(s.users, id).Some? && epoch <= Epoch(s.users, id).value
    requires forall i :: 0 <= i < |ts| ==> !ts[i].c.Import? && ts[i].c != Delete(id)
    requires PasswordChanges(s, ts, id) > 0
    requires var u := LookupName(Run(s, ts).users, Run(s, ts).byName, name); u.Some? ==> u.value.id == id
    ensures !TokenAccepted(Run(s, ts).users, Run(s, ts).byName, name, epoch)
  {
    hide Run, Epoch, PasswordChanges, User.EnabledAdmin;
    EpochsCountChanges(s, ts, id);
    var u := LookupName(Run(s, ts).users, Run(s, ts).byName, name);
    if u.Some? { EpochOfFound(Run(s, ts).users, u.value); }
  }

  /** A token outlives its user when another user takes the name at the token's epoch: here a
      deletion and a creation under the same name, both saved. */
  lemma TokenOutlivesUser(s: State, id: string, v: User, name: string)
    requires Sound(s.users) && Perform(s.users, Delete(id)).Ok?
    requires var us := Perform(s.users, Delete(id)).value;
             Perform(us, Create(v)).Ok? && IndexOfId(us, v.id) < 0 && v.id != ""
    requires EqualFold(v.username, name) && v.EnabledAdmin()
    ensures var e := Run(s, [Transaction(Delete(id), true), Transaction(Create(v), true)]);
            TokenAccepted(e.users, e.byName, name, v.tokenEpoch)
  {
    hide Perform;
    var one, two := [Transaction(Delete(id), true)], [Transaction(Delete(id), true), Transaction(Create(v), true)];
    assert two[..1] == one && one[..0] == [];
    var us := Perform(s.users, Delete(id)).value;
    assert Run(s, one).users == us by { assert Run(s, one) == Commit(Run(s, []), one[0]).0; }
    CreatedAtEnd(us, v);
    var all := us + [v];
    assert Run(s, two) == State(all, all, IdIndex(all), NameIndex(all));
    LastNamed(us, v, name);
  }

  lemma CreatedAtEnd(us: seq<User>, v: User)
    requires Perform(us, Create(v)).Ok?
    ensures Perform(us, Create(v)) == Ok(us + [v])
  {
  }

  lemma LastNamed(us: seq<User>, v: User, name: string)
    requires EqualFold(v.username, name)
    ensures LookupName(us + [v], NameIndex(us + [v]), name) == Some(v)
  {
    assert (us + [v])[..|us|] == us;
  }

  // ---- the source's own form ----

  /** An edit in the order in which the callback decides. */
  lemma EditCases(us: seq<User>, i: nat, b: Body, hash: string)
    requires i < |us| && IndexOfId(us, us[i].id) == i
    ensures var edited, id := us[i := ApplyBody(us[i], b, hash)], us[i].id;
            Perform(us, Edit(id, b, hash))
              == if NameTaken(edited, edited[i].username, id) then Err(DuplicateName)
                 else if !edited[i].EnabledAdmin() && !OtherAdmin(edited, id) then Err(LastAdmin)
                 else Ok(edited)
  {
    var edited, id := us[i := ApplyBody(us[i], b, hash)], us[i].id;
    assert edited[i].id == id;
    assert forall j :: 0 <= j < |us| && j != i ==> edited[j] == us[j];
    assert OtherAdmin(edited, id) == OtherAdmin(us, id);
  }

  lemma SameNames(a: seq<User>, b: seq<User>, name: string, exceptId: string)
    requires |a| == |b| && forall j :: 0 <= j < |a| ==> a[j].id == b[j].id && (a[j].id != exceptId ==> a[j] == b[j])
    ensures NameTaken(a, name, exceptId) == NameTaken(b, name, exceptId)
  {
  }

  lemma DeleteCases(us: seq<User>, i: nat)
    requires i < |us| && IndexOfId(us, us[i].id) == i
    ensures Perform(us, Delete(us[i].id))
            == if us[i].EnabledAdmin() && !OtherAdmin(us, us[i].id) then Err(LastAdmin) else Ok(us[..i] + us[i + 1..])
  {
    var c := Delete(us[i].id);
    assert Outcome(us, c) == Ok(us[..i] + us[i + 1..]);
    assert Guarded(us, c) == (us[i].EnabledAdmin() && !OtherAdmin(us, us[i].id));
  }

  class ConfigStore {
    var users: seq<User>
    var disk: seq<User>
    var byID: Index
    var byName: Index

    ghost function View(): State
      reads this
    {
      State(users, disk, byID, byName)
    }

    constructor (admin: User)
      requires admin.EnabledAdmin() && admin.id != ""
      ensures Initial(View())
    {
      users, disk := [admin], [admin];
      byID, byName := map[], map[];
      new;
      RebuildIndex();
    }

    method RebuildIndex()
      modifies this`byID, this`byName
      ensures byID == IdIndex(users) && byName == NameIndex(users)
    {
      byID, byName := map[], map[];
      for i := 0 to |users|
        invariant byID == IdIndex(users[..i]) && byName == NameIndex(users[..i])
      {
        byID := byID[users[i].id := i];
        byName := byName[ToLower(users[i].username) := i];
        assert users[..i + 1][..i] == users[..i];
      }
      assert users[..|users|] == users;
    }

    /** Update: run the callback on the live users, undo it if it fails, save, index. */
    method Update(t: Transaction) returns (e: Option<Error>)
      modifies this
      ensures (View(), e) == Commit(old(View()), t)
    {
      var snapshot := users;
      e := Callback(t.c);
      if e.Some? {
        users := snapshot;
        return;
      }
      if !t.saveOk {
        return Some(SaveFailed);
      }
      disk := users;
      RebuildIndex();
    }

    /** The callbacks edit the users in place; one that fails may leave a half-done edit. */
    method Callback(c: Command) returns (e: Option<Error>)
      modifies this`users
      ensures match Perform(old(users), c)
              case Ok(us) => e == None && users == us
              case Err(error) => e == Some(error)
    {
      match c
      case Create(u) =>
        var taken := UsernameTaken(u.username, "");
        if taken {
          return Some(DuplicateName);
        }
        users := users + [u];
        e := None;
      case Edit(id, b, hash) => e := EditInPlace(id, b, hash);
      case Delete(id) => e := DeleteInPlace(id);
      case SetPassword(id, hash) => e := SetPasswordInPlace(id, hash);
      case Import(imported) =>
        users := imported;
        e := None;
      case FlushStats(flight) =>
        ghost var before := users;
        for i := 0 to |users|
          invariant |users| == |before|
          invariant forall j :: 0 <= j < i ==> users[j] == WithStats(before, flight)[j]
          invariant forall j :: i <= j < |users| ==> users[j] == before[j]
        {
          users := users[i := users[i].(stats := users[i].stats.Plus(StatsFlush.Of(flight, users[i].id)))];
        }
        assert users == WithStats(before, flight);
        e := None;
    }

    method UsernameTaken(name: string, excludeID: string) returns (taken: bool)
      ensures taken == NameTaken(users, name, excludeID)
    {
      for i := 0 to |users|
        invariant forall j :: 0 <= j < i ==> !(users[j].id != excludeID && EqualFold(users[j].username, name))
      {
        if users[i].id != excludeID && EqualFold(users[i].username, name) {
          return true;
        }
      }
      return false;
    }

    /** countEnabledAdmins, of which callers only ask whether it is zero. */
    method CountEnabledAdmins(excludeID: string) returns (n: nat)
      ensures n > 0 <==> OtherAdmin(users, excludeID)
    {
      n := 0;
      for i := 0 to |users|
        invariant n > 0 <==> exists j :: 0 <= j < i && users[j].id != excludeID && users[j].EnabledAdmin()
      {
        if users[i].role == "admin" && users[i].enabled && users[i].id != excludeID {
          n := n + 1;
        }
      }
    }

    /** The loop body of an edit, at the user it is for. */
    method EditAt(i: nat, b: Body, hash: string) returns (e: Option<Error>)
      requires i < |users| && IndexOfId(users, users[i].id) == i
      modifies this`users
      ensures match Perform(old(users), Edit(old(users)[i].id, b, hash))
              case Ok(us) => e == None && users == us
              case Err(error) => e == Some(error)
    {
      var id := users[i].id;
      ghost var edited := users[i := ApplyBody(users[i], b, hash)];
      EditCases(users, i, b, hash);
      users := users[i := Rename(users[i], b)];
      var taken := UsernameTaken(users[i].username, id);
      SameNames(users, edited, users[i].username, id);
      if taken {
        return Some(DuplicateName);
      }
      users := users[i := ApplyFields(users[i], b, hash)];
      assert users == edited;
      var others := CountEnabledAdmins(id);
      if (users[i].role != "admin" || !users[i].enabled) && others == 0 {
        return Some(LastAdmin);
      }
      return None;
    }

    method EditInPlace(id: string, b: Body, hash: string) returns (e: Option<Error>)
      modifies this`users
      ensures match Perform(old(users), Edit(id, b, hash))
              case Ok(us) => e == None && users == us
              case Err(error) => e == Some(error)
    {
      for i := 0 to |users|
        invariant users == old(users)
        invariant forall j :: 0 <= j < i ==> users[j].id != id
      {
        if users[i].id != id {
          continue;
        }
        FirstIs(users, id, i);
        e := EditAt(i, b, hash);
        return;
      }
      return Some(NotFound);
    }

    method DeleteInPlace(id: string) returns (e: Option<Error>)
      modifies this`users
      ensures match Perform(old(users), Delete(id))
              case Ok(us) => e == None && users == us
              case Err(error) => e == Some(error)
    {
      for i := 0 to |users|
        invariant users == old(users)
        invariant forall j :: 0 <= j < i ==> users[j].id != id
      {
        if users[i].id != id {
          continue;
        }
        FirstIs(users, id, i);
        DeleteCases(users, i);
        var others := CountEnabledAdmins(id);
        if users[i].role == "admin" && users[i].enabled && others == 0 {
          return Some(LastAdmin);
        }
        users := users[..i] + users[i + 1..];
        return None;
      }
      return Some(NotFound);
    }

    method SetPasswordInPlace(id: string, hash: string) returns (e: Option<Error>)
      modifies this`users
      ensures match Perform(old(users), SetPassword(id, hash))
              case Ok(us) => e == None && users == us
              case Err(error) => e == Some(error)
    {
      for i := 0 to |users|
        invariant users == old(users)
        invariant forall j :: 0 <= j < i ==> users[j].id != id
      {
        if users[i].id == id {
          FirstIs(users, id, i);
          users := users[i := users[i].(passwordHash := hash, tokenEpoch := users[i].tokenEpoch + 1)];
          return None;
        }
      }
      return Some(NotFound);
    }
  }

  /** The checks of one imported user that do not involve the others. */
  method CheckFields(k: Checks, u: User) returns (ok: bool)
    ensures ok <==> ValidUser(k, u)
  {
    if u.id == "" || !ValidName(TrimSpace(u.username)) {
      return false;
    }
    if (u.role != "user" && u.role != "admin") || !k.hashOk(u.passwordHash) {
      return false;
    }
    if !k.patternsOk(u.whitelist) || !k.patternsOk(u.blacklist) {
      return false;
    }
    return !(u.maxConns < 0 || u.maxConns > 100000 || u.dailyTrafficMB < 0 || u.dailyTrafficMB > 1000000);
  }

  /** The valid users of a snapshot prefix: everything but the admin. */
  ghost predicate ValidSoFar(k: Checks, us: seq<User>) {
    && (forall i :: 0 <= i < |us| ==> ValidUser(k, us[i]))
    && UniqueIds(us)
    && (forall i, j :: 0 <= i < j < |us| ==> ImportKey(us[i]) != ImportKey(us[j]))
  }

  function Ids(us: seq<User>): set<string> { set i | 0 <= i < |us| :: us[i].id }

  function Names(us: seq<User>): set<string> { set i | 0 <= i < |us| :: ImportKey(us[i]) }

  lemma OneMoreValid(k: Checks, us: seq<User>, n: nat)
    requires n < |us| && ValidSoFar(k, us[..n])
    requires ValidUser(k, us[n]) && us[n].id !in Ids(us[..n]) && ImportKey(us[n]) !in Names(us[..n])
    ensures ValidSoFar(k, us[..n + 1])
  {
    var a, b := us[..n], us[..n + 1];
    assert b == a + [us[n]];
    forall i | 0 <= i < n ensures b[i].id != us[n].id && ImportKey(b[i]) != ImportKey(us[n]) {
      assert a[i].id in Ids(a) && ImportKey(a[i]) in Names(a);
    }
  }

  lemma OneMoreInvalid(k: Checks, us: seq<User>, n: nat)
    requires n < |us|
    requires !ValidUser(k, us[n]) || us[n].id in Ids(us[..n]) || ImportKey(us[n]) in Names(us[..n])
    ensures !ValidSnapshot(k, us)
  {
    if us[n].id in Ids(us[..n]) {
      var i :| 0 <= i < n && us[..n][i].id == us[n].id;
      assert us[i].id == us[n].id;
    } else if ImportKey(us[n]) in Names(us[..n]) {
      var i :| 0 <= i < n && ImportKey(us[..n][i]) == ImportKey(us[n]);
      assert ImportKey(us[i]) == ImportKey(us[n]);
    }
  }

  lemma OneMoreId(us: seq<User>, n: nat)
    requires n < |us|
    ensures Ids(us[..n + 1]) == Ids(us[..n]) + {us[n].id}
  {
    var a, b := us[..n], us[..n + 1];
    forall x | x in Ids(a) ensures x in Ids(b) {
      var i :| 0 <= i < n && a[i].id == x;
      assert b[i].id == x;
    }
    assert b[n].id in Ids(b);
    forall x | x in Ids(b) ensures x in Ids(a) + {us[n].id} {
      var i :| 0 <= i < n + 1 && b[i].id == x;
      if i < n { assert a[i].id == x; }
    }
  }

  lemma OneMoreName(us: seq<User>, n: nat)
    requires n < |us|
    ensures Names(us[..n + 1]) == Names(us[..n]) + {ImportKey(us[n])}
  {
    hide ImportKey;
    var a, b := us[..n], us[..n + 1];
    forall x | x in Names(a) ensures x in Names(b) {
      var i :| 0 <= i < n && ImportKey(a[i]) == x;
      assert ImportKey(b[i]) == x;
    }
    assert ImportKey(b[n]) in Names(b);
    forall x | x in Names(b) ensures x in Names(a) + {ImportKey(us[n])} {
      var i :| 0 <= i < n + 1 && ImportKey(b[i]) == x;
      if i < n { assert ImportKey(a[i]) == x; }
    }
  }

  lemma OneMoreAdmin(us: seq<User>, n: nat)
    requires n < |us|
    ensures HasAdmin(us[..n + 1]) <==> HasAdmin(us[..n]) || us[n].EnabledAdmin()
  {
    var a, b := us[..n], us[..n + 1];
    assert b == a + [us[n]];
    assert forall i :: 0 <= i < n ==> a[i] == b[i];
    assert b[n] == us[n];
  }

  lemma NothingSeen(k: Checks)
    ensures ValidSoFar(k, []) && Ids([]) == {} && Names([]) == {} && !HasAdmin([])
  {
  }

  lemma AllSeen(k: Checks, us: seq<User>)
    requires ValidSoFar(k, us)
    ensures HasAdmin(us) <==> ValidSnapshot(k, us)
  {
  }

  /** The import check, user by user with the names and IDs seen so far, is the declarative one. */
  method ValidateImportSnapshot(k: Checks, us: seq<User>) returns (ok: bool)
    ensures ok <==> ValidSnapshot(k, us)
  {
    hide ValidSoFar, ValidSnapshot, Ids, Names, HasAdmin, ValidUser, ToLower, TrimSpace;
    var seenIDs: set<string>, seenNames: set<string>, admins := {}, {}, 0;
    NothingSeen(k);
    for i := 0 to |us|
      invariant ValidSoFar(k, us[..i])
      invariant seenIDs == Ids(us[..i]) && seenNames == Names(us[..i])
      invariant admins >= 0 && (admins > 0 <==> HasAdmin(us[..i]))
    {
      OneMoreId(us, i);
      OneMoreName(us, i);
      OneMoreAdmin(us, i);
      var u := us[i];
      var good := CheckFields(k, u);
      var name := ToLower(TrimSpace(u.username));
      if !good || u.id in seenIDs || name in seenNames {
        OneMoreInvalid(k, us, i);
        return false;
      }
      OneMoreValid(k, us, i);
      seenIDs := seenIDs + {u.id};
      seenNames := seenNames + {name};
      if u.role == "admin" && u.enabled {
        admins := admins + 1;
      }
    }
    assert us[..|us|] == us;
    AllSeen(k, us);
    return admins != 0;
  }
}
