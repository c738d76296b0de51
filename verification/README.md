# Verification models of the filtering proxy

Dafny models of the stateful parts of the filtering HTTP proxy, with proofs of what each
part keeps over whole runs. Code that changes state in place is modelled by classes whose
methods are proved against specification functions; the run-level theorems are about those
functions. One module per component:

| module | component |
|---|---|
| Admission | the connection caps: an interleaving protocol over a locked per-user map and an atomic global counter |
| ActivityLog, Reload, FileLines | the activity log: ring, append file halved when it outgrows its limit, reload of the newest lines |
| AuditLog | the audit log and its windowed reader |
| Csv | CSV export and a reader that it round-trips through |
| Timeline | one-pass bucketing and the top-ten list against counting from scratch |
| Limiter | the three failure limiters and the pruner, as one timed state machine |
| Users, Store | user administration: callbacks, rollback, indexes, import, token epochs |
| Rules, Globs, Hosts | pattern compilation, host and target normalisation, the decision |
| AuthCache | the memoised password check under interleaving |
| Pbkdf2 | the key derivation loops against section 5.2 of RFC 8018 |
| StatsFlush, DailyTraffic | traffic counters, the two-section flush, the daily counter |
| Text, Sequences, Arithmetic, Octet, Wrappers, LogEntries | shared vocabulary |

`dafny verify dfyconfig.toml` checks everything.

Things outside the code are parameters with stated assumptions: the JSON codec (one line per
entry, decoding undoes encoding, the end of a line does not decode), the RFC 3339 parser, the
IP literal and CIDR parsers, the HMAC (any function with a fixed non-zero output length), the
password derivation in the cache (any function), clocks (any times that do not run back) and
whether a save succeeds.

## Where the code and its comments differ

The models follow the code.

- proxy.go:584-590 says both counters are validated under one lock. The global counter is
  changed and read outside it, so two requests can refuse each other
  (`Admission.SpuriousRejection`).
- A user with an empty ID takes a per-user slot but never gives it back
  (`Admission.Quiescence` says exactly when a counter does not return to zero,
  `Admission.EmptyIdKeepsSlot` shows it).
- logstore.go:154-159 drops the first line of a cut window after the filter has run, so a good
  line can be lost (`Reload.KeptAllIff`, `Reload.ExtraLineLost`). The truncation at 160-162
  never acts (`Reload.KeptExact`).
- logstore.go:242 does not count the newline, so the file can reach its limit plus one byte
  (`ActivityLog.SizeBound`, `ActivityLog.OverLimitExactly`, `ActivityLog.SizeBoundSharp`).
- The clamp of negative counts in the timeline never acts (`Timeline.OutcomesPartition`).
- An import is judged by trimmed names and stores the raw ones; names stay distinct, but a
  padded name is not found under its trimmed form (`Users.FoundByValidatedName`,
  `Users.PaddedNameMissed`).
- A CONNECT target with a plain host and a port of more than 5 digits, or a port that is not
  a number, is judged together with its port, so a rule for the host does not apply
  (`Hosts.UnstrippedPortJudged`, `Hosts.LongPortJudged`); `Hosts.JudgedIsDialled` says exactly
  when the two hosts agree.
- The CSV export is described as RFC 4180, whose records end with CRLF; the export ends them
  with LF (`Csv.RowsRoundTrip` reads both).
- A failed save is not rolled back and leaves the indexes stale (`Store.LookupsExact` says exactly
  which lookups still agree with a search, `Store.StaleIndexMisses` shows one that does not).
- A whitelist none of whose patterns compiles permits everything
  (`Rules.UnusableWhitelistPermits`).
- The key of the password cache joins hash and password with two NUL bytes. Stored hashes that
  contain NUL bytes can share a key (`AuthCache.KeysSharedExactly` says exactly which,
  `AuthCache.ClashMisleads` that a wrong answer can follow), and the format check of an import,
  admin.go:1230-1238, does not exclude them.
- A session token names its user, so it can outlive a deletion when the name is given out again
  (`Store.TokenAcceptedExactly`, `Store.TokenOutlivesUser`).

## Model

| member | source | states |
|---|---|---|
| Admission.CountersExact | proxy.go:591-638 | after every schedule of the separate atomic steps, the global counter and each per-user counter equal the number of requests in a phase that holds such a slot, and the lock has one holder |
| Admission.CountersNeverNegative | proxy.go:591-638 | with fewer than 2^31 requests the 32-bit counters are those counts and never negative |
| Admission.Quiescence | proxy.go:627-638 | when all requests have finished the global counter is zero, and a user's is zero if and only if no request with that empty ID was admitted |
| Admission.EmptyIdKeepsSlot | proxy.go:627-638 | a run of one request of a user with an empty ID that ends with its counter at one |
| Admission.UserCheckBounds | proxy.go:600-610 | a request that passes the per-user check under cap c leaves at most c requests of that user past the check, whatever caps the others had |
| Admission.GlobalCheckBounds | proxy.go:612-624 | an admission under global cap m leaves at most m connections in use |
| Admission.UserCapHolds | proxy.go:591-638 | with caps of a user never above c, no reachable state has more than c of its connections in use |
| Admission.OwnCapHolds | proxy.go:592-604 | a user whose requests carry a cap of their own never has more connections in use than that |
| Admission.DefaultCapHolds | proxy.go:592-604 | a user whose requests carry none never has more than the default |
| Admission.GlobalCapHolds | proxy.go:591-638 | with global caps never above m, no reachable state has more than m connections in use |
| Admission.NoDeadlock | proxy.go:591-638 | while a request is unfinished some request can take a step |
| Admission.SpuriousRejection | proxy.go:612-624 | a schedule in which two requests are both refused for one free slot |
| Admission.GlobalRefusalExact | proxy.go:612-624 | in every reachable state, a request is refused with 503 if and only if the connections in use and the requests then deciding, itself among them, exceed its cap |
| Admission.AloneRefusalGenuine | proxy.go:612-624 | while no other request is deciding, it is refused if and only if the cap is full of connections in use |
| Admission.UserRefusalExact | proxy.go:592-610 | in every reachable state, a request is refused with 429 if and only if as many requests of the user as its cap, its own or the default, in 32 bits, have passed their check and hold their slot |
| Admission.RefusalStatus | proxy.go:591-625 | a refusal by the user's cap is 429, by the global cap 503, and there is no other |
| Admission.UserRefusalGenuine | proxy.go:597-610 | while all those are connections in use, it is refused if and only if they fill the cap |
| Admission.ConnGate.TryEnterConn | proxy.go:591-625 | alone, a call is refused with 429 or 503 exactly when that cap is reached; a refusal gives everything back, an admission takes one slot of each kind |
| Admission.ConnGate.ExitConn | proxy.go:627-638 | gives back one global slot, and one user slot unless the ID is empty |
| FileLines.LinesConcat | logstore.go:138-150 | cutting a file in two cuts at most one line, and the pieces of that line join |
| FileLines.LinesOfTail | logstore.go:274-306 | any suffix of a file of lines has its last lines, preceded by at most the end of one |
| Reload.FindStart | logstore.go:98-127 | the backward walk, for every chunk size, finds the position of the specification |
| Reload.WalkBackExact | logstore.go:98-127 | that position is right after the k-th newline from the end when there are k, and what follows holds k - 1 complete lines; otherwise 0 |
| Reload.GoodLines | logstore.go:138-150 | the loop over the bytes read gives the complete lines of 1 byte to 1 MiB, in order |
| Reload.GoodExact | logstore.go:146-148 | the lines kept by the filter are those of 1 byte to 1 MiB |
| Reload.ReadInNumbers | logstore.go:128-133 | at most 64 MiB are read, and fewer never because of the cap |
| Reload.ReadWindow | logstore.go:98-162 | both passes with cap, drop and truncation give the kept lines of the specification |
| Reload.KeptExact | logstore.go:128-162 | for every file, the kept lines are the good lines wholly in the window, less one when the cut line had been filtered out; never more than max |
| Reload.KeptAllIff | logstore.go:146-159 | no good line of the window is lost if and only if the window does not cut a line that the filter removes ahead of a good one |
| Reload.ExtraLineLost | logstore.go:146-159 | a file on which a good line inside the window is lost |
| Reload.InsideIsTail | logstore.go:151-159 | the lines of the window are the last lines of the file, and only the cut line is missing between them and those before |
| Reload.KeptIsSuffix | logstore.go:98-162 | the kept lines are a suffix of the file's good lines, so never part of a line |
| Reload.KeptWithoutCap | logstore.go:98-162 | when the read cap does not bite they are exactly the good ones among the newest max lines |
| ActivityLog.ContentIsTail | logstore.go:203-306 | file and buffer are always a suffix of what the file held plus all lines written since the last Clear, over any mix of operations, settings, rotations and orderly restarts |
| ActivityLog.RingIsNewest | logstore.go:203-223 | with one ring size the ring is exactly the newest entries recorded |
| ActivityLog.RingIsTail | logstore.go:203-223 | with changing sizes it is a suffix no longer than the last size |
| ActivityLog.RingOverRun | logstore.go:50-223 | after any run, wipes and restarts included, the ring is a suffix of what was recorded since the last wipe, following what the last restart loaded |
| ActivityLog.WipedStaysWiped | logstore.go:182-200 | a Clear leaves nothing in ring or file, and a restart after it loads nothing |
| ActivityLog.StampExact | logstore.go:203-209 | an entry is stored as it came, with the current time when it had none and the timestamp when the time parses |
| ActivityLog.FiledExactly | logstore.go:80-222 | a record reaches the file if and only if file logging is on with a positive limit, and the file is read back if and only if it is on and the limit is not zero |
| ActivityLog.SettingsInNumbers | logstore.go:214-222 | without a ring size 20000 entries are kept, and the limit counts in MiB |
| ActivityLog.ReloadIsSuffix | logstore.go:78-175 | a restart after any run loads a suffix of the entries written since the last Clear whose lines are at most 1 MiB, in order, never part of one |
| ActivityLog.RestartLoadsSuffix | logstore.go:50-58 | so the ring after a restart is such a suffix |
| ActivityLog.RestartRestoresRing | logstore.go:78-223 | before the first rotation, and while the newest lines fit the read cap, a restart changes neither ring nor file |
| ActivityLog.SizeBound | logstore.go:226-250 | with lines of at most (limit - 1) / 2 bytes the file stays within limit + 1, and one that starts less than 2^n over is within it after n writes |
| ActivityLog.ExcessHalves | logstore.go:274-306 | each write at least halves what the file has over limit + 1 |
| ActivityLog.AppendKeeps | logstore.go:226-306 | a write loses nothing while file and line fit the limit, and otherwise exactly the older half of the file, rounded down |
| ActivityLog.OverLimitExactly | logstore.go:242-250 | within the bound, a write leaves the file over its limit if and only if the line ends on the limit, or file and line are both as large as can be |
| ActivityLog.SizeBoundSharp | logstore.go:242-250 | lines within the bound take an empty file to limit + 1, and one more byte in a line then breaks the bound |
| ActivityLog.LogStore.constructor | logstore.go:50-76 | opening loads the entries of the specification and keeps the file |
| ActivityLog.LogStore.Add | logstore.go:203-223 | stamps the entry, appends it to the ring cut to its newest, and writes it when file logging is on |
| ActivityLog.LogStore.WriteFile | logstore.go:226-250 | the logical file after a write, through rotation and buffering |
| ActivityLog.LogStore.Rotate | logstore.go:274-306 | after flushing, the file keeps its newer half, rounded up |
| ActivityLog.LogStore.Write | logstore.go:238-244 | the buffered writer changes neither order nor content |
| ActivityLog.LogStore.Clear | logstore.go:182-200 | empties ring, buffer and file |
| ActivityLog.LogStore.Recent | logstore.go:317-344 | the newest matching entries, newest first, at most the clamped limit: the reversed end of the filtered ring |
| ActivityLog.WantedFinds | logstore.go:324-337 | a user filter admits only that user, no filter everything, and a query finds its text in each of the five fields, without regard to case |
| Csv.RowsRoundTrip | logstore.go:347-365 | whatever the fields contain, exactly the rows written are read back by a reader for section 2 of RFC 4180 that takes LF as a line end beside CRLF |
| Csv.FieldExact | logstore.go:347-352 | a field is quoted, with its quotes doubled, if and only if it contains a quote, a comma or a line break |
| Csv.BareReturnIsLost | logstore.go:347-352 | a carriage return left unquoted at the end of a row would be read as part of the line end |
| Csv.ExportReadsBack | logstore.go:355-365 | an export reads back as the header and one record per entry |
| Csv.NumberReadsBack | logstore.go:359-362 | a number written in decimal reads back as it was |
| Csv.ColumnsNamed | logstore.go:357-362 | each column holds the field that the header names |
| Csv.CSV | logstore.go:355-365 | the export loop, with numbers unquoted, writes that text |
| AuditLog.RecentIsNewestRecords | audit.go:54-161 | after any records on any file, through rotations, what the reader decodes ends with the newest records in order, exactly those that fit whole into the window and the file; a first record written onto an unfinished line does not count |
| AuditLog.FreshFileReads | audit.go:54-161 | on a fresh file it decodes nothing else |
| AuditLog.WholePieces | audit.go:126-149 | the file's pieces are those before the window, the one it cuts if it cuts one, and the pieces looked at |
| AuditLog.AuditInNumbers | audit.go:34-132 | the window is the last MiB and the file limit 50 MiB |
| AuditLog.ReadLineTrims | audit.go:150-158 | a line is decoded without the blank text around it, and a blank line is none |
| AuditLog.AuditFile.Record | audit.go:54-84 | the file after a record, through rotation |
| AuditLog.AuditFile.Recent | audit.go:113-161 | the newest decodable entries of the window, newest first, at most the clamped limit |
| Sequences.ReversedOrder | logstore.go:317-344 | reversing turns positions around |
| Timeline.Timeline | logstore.go:390-483 | the one-pass result is the bucket-by-bucket count from scratch, and the first ten of a ranking of all users of the window |
| Timeline.Chart | logstore.go:446-468 | the emitted points are gap-free, floor((last - first) / bucket) + 1 of them, each counted from scratch |
| Timeline.OneMoreEntry | logstore.go:405-435 | one more entry adds one request to the point of its bucket, in the column of its outcome, and its bytes in 64 bits |
| Timeline.BucketExact | logstore.go:400-421 | an entry counts if and only if its timestamp, or else its parsed time, is inside the window and it is of the user asked for, in the bucket at or below that time |
| Timeline.ChartSpansWindow | logstore.go:446-468 | the points run without a gap from the bucket of the window's beginning to that of now |
| Timeline.OneMoreOfUser | logstore.go:436-445 | one more entry adds to the totals of its own user alone |
| Timeline.BucketsAligned | logstore.go:446-452 | bucket starts are multiples of the bucket size |
| Timeline.EntryInOnePoint | logstore.go:405-430 | every entry of the window is counted in exactly one emitted point |
| Timeline.ChartConservesCounts | logstore.go:446-468 | requests, allowed, denied and errors of the points add up to those of the window |
| Timeline.ChartConservesBytes | logstore.go:446-468 | byte columns add up too, up to whole 64-bit wraps |
| Timeline.OutcomesPartition | logstore.go:417-462 | requests = allowed + denied + errors, none negative |
| Timeline.NobodyBetterOmitted | logstore.go:469-482 | when a user of the window is not shown, ten are, each with more bytes out, or as many and no fewer requests |
| Timeline.RankingConserves | logstore.go:436-482 | before truncation the ranking accounts for every named entry of the window |
| Limiter.PruningUnobservable | proxy.go:506-526 | on a clock that does not run back, prunes inserted anywhere change no later answer |
| Limiter.LockoutExact | admin.go:170-216 | when the key's attempts come one at a time, an attempt within an episode, with no success since its start, is refused if and only if maxFails failures have been let through and less than a lockout has passed since the last |
| Limiter.LockoutInNumbers | proxy.go:186-195 | at the login ten failures refuse for ten minutes, on the proxy port thirty for one |
| Limiter.WindowInNumbers | admin.go:170-216 | a failure more than fifteen minutes after an episode began, on the proxy port ten, begins the next |
| Limiter.NoFailureNoRefusal | admin.go:178-225 | a key that has not failed since its last success is never refused |
| Limiter.LockoutNeverShortened | admin.go:178-274 | no prune, check or further failure ends an active lockout earlier |
| Limiter.EpisodesApart | admin.go:201-216 | with no success in between, each counting episode of a key begins at least one lockout after every earlier one, even when its attempts overlap |
| Limiter.EpisodeQuota | admin.go:178-216 | from one episode's start up to the next, with no success in between, at most maxFails failures are let through |
| Limiter.OverlapQuota | admin.go:178-216 | with at most w attempts of the key under way at once, at most maxFails + w - 1 |
| Limiter.OverlapBound | admin.go:170-225 | with at most w attempts of a key under way at once, at most (maxFails + w - 1) * (T / lockout + 1) failures are let through in the time T since the first after its last success; other keys do anything and prunes come anywhere |
| Limiter.FailureBound | admin.go:170-225 | so at most maxFails * (T / lockout + 1) when the key's attempts come one at a time |
| Limiter.FailureBoundTight | proxy.go:458-495 | for every number of lockouts some run reaches the bound |
| Limiter.FailLimiter.Allowed | admin.go:178-199 | the check is the specification's, including the entries it removes |
| Limiter.FailLimiter.Fail | proxy.go:480-495 | the failure is the specification's |
| Limiter.FailLimiter.PruneExpired | proxy.go:506-526 | removes exactly the entries whose window has passed |
| Limiter.AuthThrottle.AccountAllowed | admin.go:230-253 | the account limiter folds case and ignores an empty name |
| Users.PerformSound | admin.go:533-792 | every successful callback keeps at least one enabled admin, unique IDs and names unique without regard to case |
| Users.CreateExact | admin.go:579-588 | a create adds the user at the end if and only if nobody has its name without regard to case |
| Users.EditExact | admin.go:629-683 | an edit reaches each field that it names and no other, the password together with the epoch |
| Users.EditDuplicateExact | admin.go:629-683 | it is refused as a duplicate if and only if its new name is another user's |
| Users.DeleteExact | admin.go:728-745 | a delete takes out the user with the ID and keeps the others in order |
| Users.SetPasswordExact | admin.go:774-785 | a password change stores the hash, raises the epoch by one and touches nothing else; it fails if and only if nobody has the ID |
| Users.ImportAndFlushExact | admin.go:1110-1121 | an import installs its users; a flush adds to each user's three counters its share |
| Users.LastAdminExact | admin.go:579-752 | the last-admin error is raised if and only if the callback would otherwise succeed and leave no enabled admin |
| Users.SnapshotSound | admin.go:1149-1226 | an accepted import satisfies the same invariants |
| Users.SnapshotInNumbers | admin.go:1152-1226 | which snapshots an import accepts, written out |
| Users.RawNamesDistinct | admin.go:1191-1199 | users distinct by trimmed folded name are distinct by the raw names stored |
| Text.FoldExact | admin.go:42-49 | names are alike if and only if they differ at most in the case of letters |
| Text.TrimExact | admin.go:1191-1199 | trimming takes away exactly the blank text around a name |
| Users.FoundByValidatedName | admin.go:1191-1199 | an imported user is found under the name it was validated by if and only if that name had no spaces around it |
| Users.PaddedNameMissed | admin.go:1191-1199 | every valid admin, with a space put before its name, is accepted by an import and not found under the name |
| Store.AlwaysSound | config.go:229-253 | through every run of saved, rejected and unsaved updates, users in memory and on disk keep the invariants |
| Store.IndexAgreement | config.go:229-311 | after every saved update both lookups equal a search of the users |
| Store.LookupId | config.go:288-299 | with any index, however stale, an answer carries the requested ID |
| Store.LookupName | config.go:301-311 | with any index, an answer carries the requested name |
| Store.RejectedUnobservable | config.go:229-241 | rejected updates can be struck from any run without changing memory, disk or indexes |
| Store.LookupsExact | config.go:131-138 | in every reachable state, also after saves that failed, each lookup equals a search of the users if and only if the user is not there or is where the last save had it |
| Store.IndexesAreSaved | config.go:242-253 | the indexes are always those of the users last saved |
| Store.StaleIndexMisses | config.go:242-244 | for instance, a user created by an update that was not saved is not found |
| Store.EarlyRefusalAgrees | admin.go:560-588 | the lookup before a create refuses only what the transaction would refuse |
| Store.EpochsCountChanges | admin.go:664-785 | while a user exists and nothing is imported, its epoch grows by exactly its password changes |
| Store.CredentialIsLineage | admin.go:579-785 | in every run each user carries the hash of its last successful password change, or of its creation or import, and an epoch raised once by each change since |
| Store.TokenAcceptedExactly | auth.go:233-249 | in every run a token is accepted if and only if the user found under its name is an enabled admin whose epoch, by that history, is the token's |
| Store.OldTokenExact | auth.go:233-249 | while the user stays and the name leads to it, a token issued at the start is accepted if and only if the user is an enabled admin and has not changed its password |
| Store.OldTokenRefused | auth.go:233-249 | a token issued before a password change is not accepted again while the name leads to that user |
| Store.TokenOutlivesUser | auth.go:233-249 | when a user is deleted and another created under the name, a token at the new user's epoch is accepted |
| Store.ConfigStore.Update | config.go:229-253 | rollback, save and index follow the transaction of the specification |
| Store.ConfigStore.Callback | admin.go:579-785 | the in-place edits compute the specification's result or error |
| Store.ConfigStore.RebuildIndex | config.go:131-138 | the loop builds both indexes |
| Store.ValidateImportSnapshot | admin.go:1152-1226 | the one-pass check accepts exactly the valid snapshots |
| Hosts.JudgedIsDialled | rules.go:190-254 | the host judged for a CONNECT target is the host dialled if and only if the host contains a colon or the port is empty or of 1 to 5 digits |
| Hosts.PortDigits | rules.go:205-211 | a plain host is judged without a port of at most five digits, and with any other |
| Hosts.CaseAndSpaceIgnored | rules.go:190-220 | case and blank text around a host or target never matter |
| Hosts.UnstrippedPortJudged | rules.go:190-254 | with any other port a plain host is dialled, and judged together with its port |
| Hosts.LongPortJudged | rules.go:245-255 | such a target: a numeric port of six digits |
| Hosts.DialledAsSplit | rules.go:217-243 | the normalised target splits back into that host and port |
| Hosts.HostJudgedAgain | rules.go:190-212 | normalising a host only canonicalises IP literals, and is then stable, if and only if the host is one or does not end like a port |
| Hosts.EvaluateJudgesDialled | proxy.go:917-922 | the second normalisation inside the decision keeps the dialled host, under exactly that condition |
| Globs.GlobToRegexp | rules.go:82-97 | the loop writes the anchored expression |
| Globs.GlobExact | rules.go:82-97 | for every glob, whatever characters it has, the expression parses and matches exactly what the glob does with wildcards kept on one line |
| Globs.OneLine | rules.go:82-97 | on hosts without line breaks that is the plain `*` and `?` relation |
| Globs.ContainsGlob | rules.go:82-97 | `*text*` matches exactly the hosts that contain the text |
| Globs.LiteralMatches | rules.go:82-97 | a glob without wildcards matches itself alone |
| Globs.QuestionMarksMatch | rules.go:82-97 | question marks match exactly the hosts of their number |
| Rules.SuffixIsUnderDomain | rules.go:22-38 | a `*.base` rule matches exactly the hosts whose last labels are those of base |
| Rules.AcceptedExactly | rules.go:42-79 | which patterns compile, as a condition on the trimmed lower-case text |
| Rules.DomainListed | rules.go:42-116 | an ordinary domain compiles and matches itself alone, and after `*.` what is under it |
| Rules.CompilePreservesMeaning | rules.go:42-79 | a compiled pattern matches exactly the hosts the pattern means |
| Rules.MatchAny | rules.go:119-126 | a rule returned matches and is of the list; none returned means none matches |
| Rules.FirstMatch | rules.go:119-126 | it is the first of the list that matches |
| Rules.ListMatches | rules.go:129-140 | a compiled list matches exactly when some pattern of it that compiles means the host |
| Rules.DecideIsPolicy | rules.go:261-311 | the decision over compiled rules is the declarative policy, for known, unknown and absent users |
| Rules.ListsBind | rules.go:261-311 | a blacklisted host is refused, under a whitelist flag or with a usable whitelist one that is not whitelisted is too, and one that is whitelisted and not blacklisted is let through |
| Rules.UnknownCaller | rules.go:273-289 | a caller that the configuration does not know is judged as if there were none |
| Rules.ConnectDecidesDialled | proxy.go:917-922 | under those conditions the decision on a CONNECT target is the declarative policy for the host dialled |
| Rules.MatchedPatternDecides | rules.go:261-311 | the pattern reported means the host and is from a list that justifies the decision |
| Rules.NamedListFirst | rules.go:266-311 | the global blacklist is named before the user's own, the user's own whitelist before the global one |
| Rules.BlacklistMonotone | rules.go:261-311 | adding blacklist patterns never turns a denial into permission |
| Rules.WhitelistMonotone | rules.go:261-311 | adding whitelist patterns never turns permission into a denial in whitelist mode, and otherwise exactly when the mode is switched on and no list has the host |
| Rules.UnusableWhitelistPermits | rules.go:129-140 | for every policy and caller without a whitelist flag, whitelists with no valid pattern leave the decision to the blacklists alone |
| Rules.RulesEngine.Rebuild | rules.go:163-176 | the loops compile every list, later rows of an ID replacing earlier ones |
| Rules.RulesEngine.Evaluate | rules.go:261-301 | what was compiled last decides by the policy it was compiled from |
| AuthCache.CacheTransparent | auth.go:173-202 | while no two stored hashes clash, under every interleaving of lookups and inserts with the derivation between them, each answer is the derivation's, and the map stays within its bound |
| AuthCache.ClashMisleads | auth.go:173-202 | for every two hashes that clash there are a derivation and two requests, run one after the other, the second of which is answered wrongly |
| AuthCache.KeysSharedExactly | auth.go:173-175 | two different hashes share a key for some passwords if and only if they clash: the start of one key is a prefix of the start of the other |
| AuthCache.NulFreeTransparent | auth.go:168-202 | so caching is invisible for stored hashes without NUL bytes |
| AuthCache.KeyInjective | auth.go:173-175 | for hashes that do not clash a key stands for one pair |
| AuthCache.ServedAnswerIsRecent | auth.go:176-200 | over every run, an answer from the map is one that a request with the same key derived, on a clock reading less than the lifetime of an entry earlier |
| AuthCache.ServedFor300Seconds | auth.go:173-202 | an answer put into a map of fewer than 4096 entries is served for 300 seconds and no longer, and other keys keep theirs |
| AuthCache.FullMapSweeps | auth.go:187-200 | a full map drops exactly what has expired, and stays as it is when nothing has |
| AuthCache.PasswordCache.VerifyCached | auth.go:173-202 | one call returns the derivation's answer and changes the map as specified |
| Pbkdf2.Pbkdf2SHA256 | auth.go:42-71 | the nested loops compute the derived key of section 5.2 of RFC 8018 for every fixed-length PRF and key length |
| Pbkdf2.Block | auth.go:54-68 | one block is the exclusive or of the iterated PRF |
| Pbkdf2.OctetOfKey | auth.go:42-71 | octet q * hLen + r of the key is octet r of T(q + 1) |
| Pbkdf2.NoSpareBlock | auth.go:45-46 | exactly as many blocks are computed as the key needs |
| Pbkdf2.KeysArePrefixes | auth.go:42-71 | a longer key extends a shorter one |
| Pbkdf2.IndexOctets | auth.go:55-58 | the four octets that reach the PRF are the block index, most significant first |
| Pbkdf2.FirstIterates | auth.go:54-62 | the iterates: the PRF of salt and index, and of the iterate before |
| Pbkdf2.LastIterate | auth.go:60-66 | each count puts exactly one more iterate into the exclusive or |
| StatsFlush.Conservation | proxy.go:1058-1126 | at every point of every interleaving of requests with overlapping flushes, stored + live + in flight is the total ever counted, for a user present throughout |
| StatsFlush.MergedStatsExact | proxy.go:1128-1142 | the merged view, whose user copy may be older than its live part, is that total if and only if nothing was merged since the copy and nothing is in flight, in 64 bits |
| StatsFlush.QuietViewExact | proxy.go:1128-1142 | so it is exact when no flush is in flight and none finished since the copy |
| StatsFlush.MergedStatsLags | proxy.go:1128-1142 | the view, what was merged since the copy and what is in flight add up to the total, whenever the copy was taken |
| StatsFlush.LiveStats.Bump | proxy.go:113-123 | adds one request and its bytes to the user's three counters |
| StatsFlush.StatsBook.SwapOut | proxy.go:1081-1091 | takes everything and leaves nothing |
| StatsFlush.StatsBook.MergeIn | proxy.go:1092-1126 | the in-place loop adds each user's share once |
| DailyTraffic.RecordAndLost | proxy.go:648-680 | for every sequence of counts, resets and sweeps, whatever the clock does, the one record kept per user and what was given up make the day's count, in 64 bits |
| DailyTraffic.TodayExactly | proxy.go:648-680 | the record answers exactly what was counted that day since the last reset if and only if nothing was given up |
| DailyTraffic.TodayExact | proxy.go:648-680 | which holds while the clock of the user's events does not run back a day |
| DailyTraffic.DailyBook.PruneDays | proxy.go:1072-1078 | the sweep removes exactly the records of other days |
| DailyTraffic.BackwardClockForgets | proxy.go:658-672 | a clock that steps back a day loses that day's count |
| DailyTraffic.DailyBook.AddDaily | proxy.go:658-672 | the update is the specification's |

## Left out

- Sockets, TLS, tunnels, DNS sinkhole lookups, listeners, HTTP routing, cookies, the CSRF guard and the web interface: no decision logic.
- JSON, base64, RFC 3339, HMAC, the regular-expression engine beyond the syntax that globs use, IP and CIDR parsing: parameters with the assumptions above.
- File errors other than a failed save, power loss and short reads; a log file is always open and a read returns everything asked for.
- Unicode case folding: names and hosts fold as ASCII.
- 64-bit overflow of times and file offsets; counters do wrap.
- Timing equalisation, the default-password memo, settings patches and range checks, header copying.
- Configuration blocks other than users, rules and log settings, and the isolation of `Config()` snapshots, which share the users slice.
- LastUsedAt timestamps in the flush, and outcome counts per user in the timeline, which nothing reads.
- Whether pattern lists and password hashes are valid is a parameter of the import check.
- ActivityLog.ReloadIsSuffix: is about files that the log itself wrote since it was empty; on other content only Reload applies, as such lines need not decode.
- Limiter.FailureBound: the attempts of the key itself come one at a time, as two checks made at once can both pass before either failure is counted; OverlapBound covers the rest.
- The order of clock readings: `proxyAuthAllowed`, `proxyAuthFail`, `loginFail` and the account limiter read the clock before they take the lock, so under contention operations can be applied slightly out of clock order; the limiter theorems are about operations applied in clock order.
- Admission.ConnGate.TryEnterConn: models a call with no other request in between; interleavings are the schedules of the state machine.
- Timeline.Timeline: the library sort is modelled by SortUsers, of which only the ranking and the permutation are used.
- Hosts.JudgedIsDialled: excludes targets with stray brackets, a second colon in the port, or spaces around the host.
- Store.OldTokenRefused: is about runs without imports and without deletion of the user; TokenAcceptedExactly covers every run. Expiry of tokens is not modelled.
