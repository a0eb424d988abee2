# Multi-party attestation: a verified model

This project models the protocol and pipeline core of the multi-factor attestation system and proves what it
promises, for every input, every run and every interleaving. `dafny verify dfyconfig.toml` checks all of it.

| part | files |
|---|---|
| Key derivation, hybrid handshake, onion cells, telescoping circuit | `KeyDerivation`, `KeyExchange`, `Onion`, `Circuit` |
| vm4's dual authority, vm0's session and heartbeat driver, vm1's INITIATE admission | `DualAuthority`, `OrchestratorSession`, `InitiateGuard` |
| Audit log, file tailer, chain monitor, the three end to end, session tracker, session files | `TextLines`, `LogTailer`, `AuditLog`, `ChainMonitor`, `LogPipeline`, `LogCuts`, `SessionSplit`, `SessionReport`, `SessionFiles`, `SessionTracker` |
| Append-only IMA logs across heartbeats; printing and parsing of result details | `ImaLog`, `DetailText` |
| XDP byte-diversity filter | `ByteDiversity`, `FlowTable`, `XdpFilter`, `XdpPolicy` |
| Counter-blind iptables fingerprint | `TableHash` |

**Libraries.** AES-GCM, ML-KEM, X25519, bincode, JSON and SHA-256 are not part of this model. They are function
fields of the records `KeyExchange.Suite` and `AuditLog.Codec` (or a hash parameter), and a predicate `Lawful` says
what the proofs assume: opening undoes sealing, decapsulation undoes encapsulation, Diffie-Hellman commutes,
deserialising undoes serialising, a JSON entry prints on one line between braces and parses back. Hash injectivity is
assumed only where a theorem is about tamper detection; that no proper piece of a printed entry is itself an entry
(`PiecesDoNotParse`) only where lines are cut; that reports print legibly only where the session files are compared. The TPM, the
clock, the random generator, the operator's credential check and the network's answers are parameters or events.

**Form.** Hops, the logger, the tailer, the monitor, the tracker, the replay cache, the chain verifier and the XDP
filter are classes whose methods update fields, each proved against functions of the old state; the theorems are
about those functions. The two protocols that interleave tasks are step machines: an event is what one task does
between two points where another may run, and a run is any sequence of enabled events.

**Where a promise fails, and exactly when it holds.**

- An operator who is told "Authorized" has not always approved the request: the request's handler may time out while
  the credentials are being checked (`AuthorizedYetDenied`). The two coincide exactly if it had not
  (`AuthorizedMeansApproved`).
- The clean-up after a timeout empties the pending slot whoever is in it, so a request can be denied that nobody
  refused, displaced, revoked or timed out (`DeniedByAnothersCleanUp`): exactly the one in the slot
  (`CleanUpDeniesExactlyTheSlot`), which was stored between the timeout and the clean-up (`DeniedWasStoredBetween`).
- The replay cache prunes by the time of acceptance, the freshness check goes by the payload's own timestamp. A payload
  dated ahead can therefore be accepted twice (`DatedAheadAcceptedTwice`). `ReplayableExactlyIf` gives the exact
  condition over all runs, `AcceptedAtMostOnce` the promise for payloads not dated ahead.
- `ima_valid` is never cleared for a node that the baseline database does not list, so its log may shrink unnoticed
  (`NoBaselineAcceptsTruncation`); logs are append-only exactly for listed nodes (`AppendOnlyExactlyWithBaseline`).
- The tailer delivers one line too many for every poll that stops inside a line (`HalfWrittenEntry`), and is exact if
  and only if none does (`SentExactly`). The monitor then misses the entry cut in two; it sees a break exactly if
  entries arrive both before and after a missing one (`LogArrivesExceptWhatIsCut`).
- A later detail with a mismatch marker of its own adds to the PCR indices read back, and a process name is enough to
  put one there (`ProcessNameAddsMismatch`); they are exact if and only if there is none (`MismatchesReadBack`). The
  same goes for the growth of a first IMA report (`ProcessNameAddsDelta`, `FirstHasNoDelta`).
- A torn append makes a restarted logger link to genesis and glue its next entry to the torn line
  (`WriteAfterTornAppend`). It links to the last line exactly if that line parses
  (`RestartLinksExactlyIfLastLineParses`), and a restart does not show exactly if nothing but blanks or the last
  entry again follows the whole lines (`RestartIsTransparentExactlyIf`).
- Two reports with one session id share a file, and the integrity check compares that file with the first of them: an
  untouched file passes exactly if the last report is, as text, the first (`UntouchedFilePassesExactlyIf`), that is,
  if the two sessions have the same entries (`PassesExactlyIfSameEntries`). A start entry received twice makes such a
  file (`RefuseUntouchedFile`).

**Reading notes.** mfa-agent/src/main.rs:467 lacks an opening brace; lines 468-469 are read as the error branch. In
`verify_chain_against_db` and `verify_full_authorization` the flag `all_ok` is never cleared, so nothing here says that
an authorised chain passed every check; the theorems are about the per-node results. `process_entry` returns one
session id even when a heartbeat-1 denial closes the previous session and its own; the model returns the last one
stored. The comment on the IMA prefix rule counts "the first `prev_count` lines" where the code takes the first line
for a count of zero; the model follows the code.

## Model

| member | source | states |
|---|---|---|
| KeyDerivation.FillKeyBlock | mfa-agent/src/crypto/mod.rs:152-164 | the zeroed buffer ends as the key block of section 2 of RFC 2104, for keys of every length |
| KeyDerivation.HmacSha256 | mfa-agent/src/crypto/mod.rs:152-182 | the in-place xor loops compute HMAC as section 2 of RFC 2104 defines it |
| KeyDerivation.OneBlockExpand | mfa-agent/src/crypto/mod.rs:134-149 | the general Expand of section 2.3 of RFC 5869 with 32 bytes of output is one HMAC over info and 0x01 |
| KeyDerivation.DeriveSessionKey | mfa-agent/src/crypto/mod.rs:134-149 | the session key is general HKDF (sections 2.2 and 2.3 of RFC 5869) of both secrets, salted with the nonce |
| KeyDerivation.HmacBinds | mfa-agent/src/crypto/mod.rs:152-182 | equal tags under keys of one length come from equal keys and texts, or two texts with one digest are exhibited |
| KeyDerivation.SessionKeyBinds | mfa-agent/src/crypto/mod.rs:134-149 | equal session keys come from the same secrets, nonce and transcript, or a collision is exhibited |
| KeyExchange.Encrypt | mfa-agent/src/crypto/mod.rs:184-208 | whatever nonce is drawn, decrypting the frame gives the plaintext back |
| KeyExchange.GenerateInit | mfa-agent/src/crypto/mod.rs:34-48 | the secrets kept belong to the public values sent |
| KeyExchange.GenerateResponse | mfa-agent/src/crypto/mod.rs:50-89 | fails only on a wrong key size, and else the responder's key is derived over this handshake and is the one any owner of the initiator's secrets will compute |
| KeyExchange.CompleteKeyExchange | mfa-agent/src/crypto/mod.rs:91-130 | the initiator's side of that key: HKDF of both secrets over the digest of all seven parts, failing only on a wrong ciphertext size |
| KeyExchange.TranscriptBinds | mfa-agent/src/crypto/mod.rs:64-72 | two transcripts of one sender are equal only if the other six parts are, or a collision is exhibited |
| KeyExchange.KeyBindsHandshake | mfa-agent/src/crypto/mod.rs:64-130 | if the initiator completes with the responder's key, both saw the same messages, or a collision is exhibited |
| Onion.WrapPayloadForHop | mfa-agent/src/main.rs:59-80 | the cell is an onion: every key before the target's opens to nothing but an empty wrapper around the onion for the remaining keys |
| Onion.UnwrapResponseFromHop | mfa-agent/src/main.rs:82-97 | strips one layer per key, failing where a layer does not open or has nothing inside |
| Onion.OnionUnwraps | mfa-agent/src/main.rs:59-97 | unwrapping inverts wrapping at every depth |
| Onion.PeelOne | mfa-agent/src/main.rs:742-829 | a hop's own layer in front of what the hops behind it read is what all of them read |
| Circuit.Node.Handshake | mfa-agent/src/main.rs:714-737 | an idle hop that accepts the handshake holds the key the client will compute |
| Circuit.Node.Receive | mfa-agent/src/main.rs:742-829 | for any depth: each hop up to the target reads its own layer only, the target's answer comes back under the same layers, an Extend attaches exactly the addressed node |
| Circuit.Node.Answer | mfa-agent/src/main.rs:806-825 | a hop's own answer opens with its session key to the command it answers with, or there is none; proxies answer attestation requests, the verifier chain 1 submissions, the authority chain 2 submissions |
| Circuit.Node.ExtendTo | mfa-agent/src/main.rs:753-775 | extending changes only this hop's downstream and the attached node, whose key the client's handshake will agree with |
| Circuit.ExtendDirect | mfa-agent/src/main.rs:138-163 | the client's first key is the key of the entry hop |
| Circuit.SendExtend | mfa-agent/src/main.rs:165-211 | an Extend through the existing hops comes back as a handshake answer that agrees with the new hop's key |
| Circuit.ExtendRelay | mfa-agent/src/main.rs:165-211 | the chain grows by the addressed node, the client's key for it is the node's, all earlier keys stay |
| Circuit.AddHop | mfa-agent/src/main.rs:115-133 | one iteration keeps the telescoping invariant and touches no node outside the circuit |
| Circuit.BuildCircuit | mfa-agent/src/main.rs:108-136 | for any number of hops: client key j is the key held by hop j, and each hop's downstream is the next |
| Circuit.IdsInOrder | mfa-agent/src/main.rs:108-136 | the names returned are the hops' names, in order |
| Circuit.Exchange | mfa-agent/src/main.rs:213-240 | a command for depth d arrives unchanged at hop d, earlier hops read only wrappers, and what hop d answers is what the client reads; the client waits for ever if and only if hop d has no answer |
| Circuit.SubmitChain | mfa-agent/src/main.rs:1008-1024 | a submission to the end of a built circuit comes back as that endpoint's verdict, for chain 1 and chain 2 |
| Circuit.CollectProxyAttestations | mfa-agent/src/main.rs:243-262 | one attestation per proxy, each that proxy's own under its name, in circuit order |
| DualAuthority.StepKeepsInv | mfa-agent/src/dual_authority/mod.rs:353-454 | every step keeps: the slot holds a request still waiting or just timed out, every other waiting request has an answer, only verified requests wait |
| DualAuthority.ReachableInv | mfa-agent/src/dual_authority/mod.rs:353-587 | the invariant holds in every state of every interleaving |
| DualAuthority.DecisionsAreFinal | mfa-agent/src/dual_authority/mod.rs:510-587 | each request gets at most one decision |
| DualAuthority.ApprovalIsAuthorized | mfa-agent/src/dual_authority/mod.rs:353-587 | an approved request passed attestation, was pre-approved, and was in the slot when operator B validated |
| DualAuthority.LosersAreDoomed | mfa-agent/src/dual_authority/mod.rs:353-573 | a step takes a request's last chance of approval if and only if the request is refused on arrival, displaced, revoked, wrongly authenticated or timed out in it, or dropped by another's clean-up |
| DualAuthority.DenialHasACause | mfa-agent/src/dual_authority/mod.rs:510-587 | every denial goes back to one of those steps |
| DualAuthority.CleanUpDeniesExactlyTheSlot | mfa-agent/src/dual_authority/mod.rs:567-573 | a timeout's clean-up denies another request if and only if that one is in the slot |
| DualAuthority.DeniedWasStoredBetween | mfa-agent/src/dual_authority/mod.rs:545-573 | over runs: a request that a clean-up denies was stored after that timeout, before that clean-up, and in the slot ever since |
| DualAuthority.DeniedByAnothersCleanUp | mfa-agent/src/dual_authority/mod.rs:567-573 | a run that denies a request nobody refused, displaced, revoked or timed out |
| DualAuthority.ApprovingStep | mfa-agent/src/dual_authority/mod.rs:381-401 | only a successful validation with the request in the slot approves it |
| DualAuthority.DoomedIsNeverApproved | mfa-agent/src/dual_authority/mod.rs:545-587 | and never get it back, in any continuation |
| DualAuthority.ApprovableUntilDoomed | mfa-agent/src/dual_authority/mod.rs:353-587 | as long as a request has not lost, some continuation of at most five steps approves it |
| DualAuthority.EveryRequestCanBeDecided | mfa-agent/src/dual_authority/mod.rs:510-587 | from every reachable state at most five steps decide a request, with approval possible if and only if it has not lost |
| DualAuthority.StepApprovesAtMostOne | mfa-agent/src/dual_authority/mod.rs:381-401 | only a successful validation adds an approval, and it adds at most one |
| DualAuthority.ApprovalsAreCounted | mfa-agent/src/dual_authority/mod.rs:381-401 | in every run approvals never outnumber successful validations |
| DualAuthority.AuthorizedMeansApproved | mfa-agent/src/dual_authority/mod.rs:381-401 | "Authorized" means approved if and only if the request's handler had not timed out |
| DualAuthority.AuthorizedYetDenied | mfa-agent/src/dual_authority/mod.rs:558-573 | a run in which operator B is told "Authorized" and the request is denied |
| DualAuthority.Vm0MutualAttest | mfa-agent/src/dual_authority/mod.rs:193-203 | vm0 proceeds if and only if vm4's attestation passed and vm4 said yes |
| DualAuthority.BothAuthoritiesAgreed | mfa-agent/src/dual_authority/mod.rs:181-206 | when vm0 proceeds, each side attested the other and operator B validated with this request in the slot |
| OrchestratorSession.StepKeepsInv | mfa-agent/src/main.rs:1436-1506 | every step of the command loop or a driver keeps the session invariant |
| OrchestratorSession.ReachableInv | mfa-agent/src/main.rs:1436-1506 | it holds in every state of every interleaving |
| OrchestratorSession.PingsAreNumbered | mfa-agent/src/main.rs:1849-1922 | a session's pings are numbered 1, 2, 3, ... up to the saturation of the counter |
| OrchestratorSession.StepAfterRevoke | mfa-agent/src/main.rs:1849-1922 | after the flag is set, no step adds to the pings sent plus the one that may be under way |
| OrchestratorSession.AtMostOnePingAfterRevoke | mfa-agent/src/main.rs:1849-1922 | at most one ping follows a set revoke flag, in every interleaving |
| OrchestratorSession.StepRaisesFlags | mfa-agent/src/main.rs:1849-1922 | no step lowers either flag or pings for a failed or ended session |
| OrchestratorSession.FlagsOnlyRise | mfa-agent/src/main.rs:1849-1922 | over whole runs both flags only rise, and no ping follows a failed heartbeat |
| OrchestratorSession.InstallIsExclusive | mfa-agent/src/main.rs:1782-1801 | when a session is installed every earlier one has ended or expired |
| OrchestratorSession.RefusedExactlyWhileActive | mfa-agent/src/main.rs:1571-1584 | authentication is refused exactly while a session is unended and unexpired, of which there is never more than one |
| OrchestratorSession.AuthenticatingExactlyUntil | mfa-agent/src/main.rs:1557-1801 | an authentication under way ends exactly by failing or installing |
| OrchestratorSession.RevokeStopsTheSession | mfa-agent/src/main.rs:1470-1490 | a revoke of the active session, if it has not ended, sets its flag for good, and at most one more ping of it follows in any continuation |
| OrchestratorSession.RevokedHasACause | mfa-agent/src/main.rs:1470-1490 | a set flag goes back to a revoke of that session while it was active and had not ended |
| OrchestratorSession.StopsExactlyOn | mfa-agent/src/main.rs:1854-1922 | a driver leaves its loop exactly on a seen revoke, its deadline, a failed send, a failed heartbeat, vm1's end, an error or no answer; failed and ended are set exactly by their events |
| OrchestratorSession.StoppedForGood | mfa-agent/src/main.rs:1854-1922 | in no continuation does a stopped driver ping again |
| OrchestratorSession.PingsExactlyOnTicks | mfa-agent/src/main.rs:1871-1916 | pings are sent exactly by ticks, and each is answered before the next |
| OrchestratorSession.InstallStores | mfa-agent/src/main.rs:1782-1801 | an installed session is the active one, unrevoked and unended, with its own expiry, and is reported exactly until then |
| OrchestratorSession.ActiveStays | mfa-agent/src/main.rs:1470-1499 | only another session or a revoke after the end replaces the active one, and nothing changes an expiry |
| InitiateGuard.VerifyInitiate | mfa-agent/src/orchestrator/mod.rs:286-363 | accepts exactly fresh, well-formed, correctly signed payloads |
| InitiateGuard.FirstRejectionWins | mfa-agent/src/orchestrator/mod.rs:286-363 | which rejection a payload gets when several apply, with all limits written out |
| InitiateGuard.ReplayCache.Prune | mfa-agent/src/orchestrator/mod.rs:422-426 | keeps exactly the entries not older than the window |
| InitiateGuard.ReplayCache.CheckAndRecord | mfa-agent/src/orchestrator/mod.rs:411-426 | new exactly if not in the pruned cache, which then holds it |
| InitiateGuard.AdmitInitiate | mfa-agent/src/main.rs:351-367 | verification first, the cache only for verified messages |
| InitiateGuard.CacheIsSound | mfa-agent/src/orchestrator/mod.rs:411-430 | every cache entry is the time of some acceptance of its id |
| InitiateGuard.CacheIsComplete | mfa-agent/src/orchestrator/mod.rs:411-430 | every acceptance is in the cache or out of the window |
| InitiateGuard.PrunedCacheAgreesWithHistory | mfa-agent/src/orchestrator/mod.rs:411-430 | a verified message is accepted if and only if the full history has no acceptance of its id within the window |
| InitiateGuard.SecondAcceptanceNeedsDelay | mfa-agent/src/main.rs:351-367 | two acceptances of one payload are over 300 s apart and need a delay between the two clock readings longer than the payload's age |
| InitiateGuard.AcceptedAtMostOnce | mfa-agent/src/main.rs:351-367 | with one clock reading per message, a payload not dated ahead is accepted at most once in any run |
| InitiateGuard.ReplayAtTheLastMoment | mfa-agent/src/orchestrator/mod.rs:286-311 | the next message that replays an accepted one, which every such run can be continued with |
| InitiateGuard.ReplayableExactlyIf | mfa-agent/src/orchestrator/mod.rs:286-311 | for every run: some continuation accepts its last payload again if and only if it is dated later than the delay between readings before it was recorded; with one reading, if and only if it is dated ahead |
| InitiateGuard.DatedAheadAcceptedTwice | mfa-agent/src/orchestrator/mod.rs:286-311 | a run that accepts one payload twice |
| TextLines.TokensOfTwoParts | mfa-monitor/src/bin/logfwd.rs:63-82 | reading a text in two parts gives the same lines exactly if the cut is clean, and else one too many |
| TextLines.LinesOfText | mfa-agent/src/audit/mod.rs:800 | splitting a file of whole lines gives the lines back |
| TextLines.CarriageReturnsAreDropped | mfa-agent/src/audit/mod.rs:800 | a carriage return in front of a newline is not part of the line, at the end of the text it is |
| TextLines.TrimIsTheMiddle | mfa-monitor/src/bin/logfwd.rs:74 | trimming takes blanks off both ends, and all of them |
| LogTailer.ReadLine | mfa-monitor/src/bin/logfwd.rs:67-81 | a line up to and with its newline, which does not show after trimming |
| LogTailer.FileTailer.constructor | mfa-monitor/src/bin/logfwd.rs:38-48 | starts at the end of the file |
| LogTailer.FileTailer.ReadNewLines | mfa-monitor/src/bin/logfwd.rs:50-82 | exactly the trimmed non-blank lines behind the position, or all of a file that got shorter, and the position moves to the end |
| LogTailer.ForwardAll | mfa-monitor/src/bin/logfwd.rs:159-197 | over any run of polls of a growing file: everything sent is everything appended, with one extra line per unclean cut, equal if and only if there is none |
| LogTailer.SentExactly | mfa-monitor/src/bin/logfwd.rs:50-82 | the same about the specification: exactly once and in order if and only if no poll cut a line |
| LogTailer.HalfWrittenLineIsSentTwice | mfa-monitor/src/bin/logfwd.rs:63-82 | any line caught half written is sent as its two halves |
| LogTailer.HalfWrittenEntry | mfa-monitor/src/bin/logfwd.rs:63-82 | two polls that send one JSON entry in two pieces |
| LogTailer.WholeLinesAreSentOnce | mfa-monitor/src/bin/logfwd.rs:50-82 | polls that see whole lines, or a last line missing only its newline, send every line exactly once |
| AuditLog.ChainAt | mfa-agent/src/audit/mod.rs:661-683 | entry i of a chain is numbered i + 1, carries the hash of the entry before it or of the genesis text, and its checkpoint signs that hash |
| AuditLog.AuditLogger.constructor | mfa-agent/src/audit/mod.rs:595-607 | starts from what recovery reads in the file |
| AuditLog.AuditLogger.Write | mfa-agent/src/audit/mod.rs:622-687 | from any state: the entry carries the next number, the current hash and, at the checkpoint interval, a signature over it, and is appended; a log in step stays one chain in step |
| AuditLog.RecoverFromLines | mfa-agent/src/audit/mod.rs:794-813 | only the last line of a file of object lines matters, and an unparsable one gives the line count and genesis |
| AuditLog.RecoveryIsExact | mfa-agent/src/audit/mod.rs:794-813 | recovery reads from the file exactly the sequence number and hash the writer had in memory |
| AuditLog.RestartLinksExactlyIfLastLineParses | mfa-agent/src/audit/mod.rs:800-811 | for any file: a restarted logger links to the last non-blank line if and only if that line parses or is the genesis text |
| AuditLog.RecoverWithTail | mfa-agent/src/audit/mod.rs:794-813 | what recovery makes of whole lines followed by any text without a newline |
| AuditLog.RestartIsTransparentExactlyIf | mfa-agent/src/audit/mod.rs:794-813 | recovery equals memory if and only if only blanks, or the last entry once more, follow the whole lines |
| AuditLog.TornTailLosesTheChain | mfa-agent/src/audit/mod.rs:806-809 | after a torn append recovery counts the torn line and falls back to genesis |
| AuditLog.WriteAfterTornAppend | mfa-agent/src/audit/mod.rs:595-687 | the next entry then does not follow the log, and is glued to the torn line |
| AuditLog.OpenLogger | mfa-agent/src/audit/mod.rs:595-607 | a logger started on a file that holds a log is in step with it |
| AuditLog.RunOp | mfa-agent/src/audit/mod.rs:595-687 | a write or a restart keeps memory, file and the record of writes in step |
| AuditLog.RunLogger | mfa-agent/src/audit/mod.rs:595-687 | after any mix of writes and restarts the file is one chain numbered 1..n holding every write's heartbeat, body and signature in order, and recovery equals memory |
| ChainMonitor.Monitor.HandleConnect | mfa-monitor/src/bin/monitor.rs:252-264 | a connection starts an empty, intact stream |
| ChainMonitor.Monitor.HandleDisconnect | mfa-monitor/src/bin/monitor.rs:268-278 | only the connected flag changes |
| ChainMonitor.ConnectedExactlyIf | mfa-monitor/src/bin/monitor.rs:252-278 | a source is connected exactly if it connected and has not disconnected since |
| ChainMonitor.Monitor.HandleEntry | mfa-monitor/src/bin/monitor.rs:280-290 | text that does not parse is refused and changes nothing; otherwise every source's state keeps reflecting its stream |
| ChainMonitor.Monitor.RecordEntry | mfa-monitor/src/bin/monitor.rs:291-375 | the check and the update leave count, last hash, breaks and the intact flag as the longer stream determines them |
| ChainMonitor.Monitor.CrossVerifySources | mfa-monitor/src/bin/monitor.rs:522-558 | cross-verified if and only if both verifiers are connected, unbroken and at most two heartbeats apart; a mismatch is counted if and only if both are connected and one is broken |
| ChainMonitor.RunMonitor | mfa-monitor/src/bin/monitor.rs:267-520 | in any interleaving of connections every source's state reflects its own stream, and the total is the number of breaks delivered |
| ChainMonitor.ReflectsNext | mfa-monitor/src/bin/monitor.rs:291-313 | the intact flag stays the absence of unlinked adjacent pairs |
| ChainMonitor.IntactNeverRecovers | mfa-monitor/src/bin/monitor.rs:300-306 | within a connection streams only grow and breaks never go away |
| ChainMonitor.ConnectionAddsItsBreaks | mfa-monitor/src/bin/monitor.rs:299-313 | in any interleaving a connection adds to its source's share exactly its unlinked adjacent pairs |
| ChainMonitor.SharesMakeTheTotal | mfa-monitor/src/bin/monitor.rs:299-301 | in any interleaving the sources' shares make up the total |
| ChainMonitor.LinkedIffAdjacent | mfa-monitor/src/bin/monitor.rs:291-299 | of a written log's entries, one links to another if and only if it directly follows it |
| ChainMonitor.BreaksAreGaps | mfa-monitor/src/bin/monitor.rs:291-313 | for entries of a written log in any order, with gaps or repeats, breaks are exactly the gaps |
| ChainMonitor.DetectionIsExact | mfa-monitor/src/bin/monitor.rs:291-313 | intact if and only if the entries delivered are a contiguous in-order piece of the log |
| LogPipeline.GainedLines | mfa-monitor/src/bin/logfwd.rs:50-82 | what a log file gained, as the tailer reads it, is the entries written since, even while a newline is still missing |
| LogPipeline.DeliveredIsTheStream | mfa-monitor/src/bin/monitor.rs:280-313 | in any interleaving the monitor keeps of a connection what its source delivered and parses |
| LogPipeline.UntamperedLogArrivesWhole | mfa-monitor/src/bin/monitor.rs:267-375 | from logger over tailer to monitor, whatever other sources do meanwhile: exactly the entries written since the forwarder started arrive, in order, the source stays intact and its share of breaks does not grow |
| LogCuts.SentIsReadAt | mfa-monitor/src/bin/logfwd.rs:50-82 | what the tailer sends depends on the final text and the lengths polled only |
| LogCuts.ReadSplit | mfa-monitor/src/bin/logfwd.rs:68-81 | reading a text in pieces is, at any line start, reading what is before it and then what is behind it |
| LogCuts.LineParses | mfa-monitor/src/bin/monitor.rs:280-290 | however a line is read in pieces, it gives its entry if and only if one poll reads all of it |
| LogCuts.LogParses | mfa-monitor/src/bin/monitor.rs:280-290 | whatever the polls, the monitor can parse exactly the lines that one poll read whole, in order |
| LogCuts.ArrivesUnlessCut | mfa-monitor/src/bin/logfwd.rs:50-82 | an entry arrives if and only if its line was appended while polling and no poll found the file ending inside it |
| LogCuts.LogArrivesExceptWhatIsCut | mfa-monitor/src/bin/monitor.rs:267-375 | under any polling and any interleaving the stream is the log without the cut entries, and the source stays intact if and only if none is missing between two that arrive |
| SessionSplit.SessionsPartitionTheRun | mfa-monitor/src/session_tracker.rs:168-246 | stored sessions followed by the active one concatenate to exactly the non-end entries |
| SessionSplit.SpansAreWellSplit | mfa-monitor/src/session_tracker.rs:168-246 | stored sessions are maximal unbroken ranges with only end entries between them |
| SessionSplit.SplitIsUnique | mfa-monitor/src/session_tracker.rs:168-246 | there is only one such way to split a run |
| SessionSplit.SessionsAreMaximalRanges | mfa-monitor/src/session_tracker.rs:168-246 | the sessions are exactly those ranges, cut where an entry ends, starts or finishes a session and nowhere else |
| SessionSplit.SessionsAreEdged | mfa-monitor/src/session_tracker.rs:168-246 | a heartbeat-1 chain entry is only ever first, an unauthorised denial or failure only ever last and never in the active session |
| SessionSplit.SessionsByEvent | mfa-monitor/src/session_tracker.rs:170-243 | the same with the events written out |
| SessionSplit.SessionsCloseForAReason | mfa-monitor/src/session_tracker.rs:170-243 | every stored session was closed by its own denial or failure, by an end entry, or by a new start |
| SessionSplit.OnlyEndsAreDropped | mfa-monitor/src/session_tracker.rs:173-180 | an entry belongs to no session exactly if it is an end entry |
| SessionReport.DedupIsTheSet | mfa-monitor/src/session_tracker.rs:224-228 | the list of names has no repetition and exactly the names met |
| SessionReport.AddNodes | mfa-monitor/src/session_tracker.rs:158-228 | the node loops keep the names seen free of repetition, in order of first appearance |
| SessionReport.FirstDenialAppend | mfa-monitor/src/session_tracker.rs:212-217 | the denial reason is the status of the first unauthorised entry |
| SessionReport.DenialIsTheFirst | mfa-monitor/src/session_tracker.rs:212-217 | the reason is the status of the first entry that is not authorised |
| SessionReport.DedupGrows | mfa-monitor/src/session_tracker.rs:224-228 | more names never change the order of those already seen |
| SessionReport.ListsGrowByEntry | mfa-monitor/src/session_tracker.rs:218-228 | hashes, durations and names grow by each entry's own |
| SessionReport.NamesGrowByNode | mfa-monitor/src/session_tracker.rs:276-290 | names and failing names grow by each node's own, an unnamed failing node as "?" |
| SessionReport.CountsGrowByEntry | mfa-monitor/src/session_tracker.rs:219-220 | captures and checkpoints are counted entry by entry |
| SessionReport.AverageIsRoundedDown | mfa-monitor/src/session_tracker.rs:271-273 | the average is the sum divided by the number, rounded down |
| SessionReport.SumAdds | mfa-monitor/src/session_tracker.rs:271-273 | the sum is that of all durations |
| SessionReport.ExtendSession | mfa-monitor/src/session_tracker.rs:190-235 | the updated session is the one its longer list of entries determines, field by field |
| SessionReport.FindFailing | mfa-monitor/src/session_tracker.rs:276-290 | the failing nodes of all entries, without repetition, unnamed ones as "?" |
| SessionReport.BuildReport | mfa-monitor/src/session_tracker.rs:249-317 | the report is the one the session's entries determine |
| SessionReport.VerifyInternalChain | mfa-monitor/src/session_tracker.rs:392-407 | true if and only if every entry carries the hash of the one before it as printed again |
| SessionTracker.SessionTracker.FinalizeSession | mfa-monitor/src/session_tracker.rs:249-333 | builds exactly that report and writes it, so the directory is what writing all reports in order leaves |
| SessionTracker.SessionTracker.CloseActive | mfa-monitor/src/session_tracker.rs:175-187 | the source's active session becomes its last stored one, all other sources untouched |
| SessionTracker.SessionTracker.ProcessEntry | mfa-monitor/src/session_tracker.rs:122-246 | the source's sessions take one step of the split, all other sources are untouched, and the answer is the session stored last |
| SessionTracker.RunTracker | mfa-monitor/src/bin/monitor.rs:498-508 | for any interleaving of sources each one's sessions are the split of its own entries, every report is true, and the directory holds what writing them in order leaves |
| SessionTracker.TrackedSessionsPartition | mfa-monitor/src/session_tracker.rs:168-246 | per source: nothing lost, repeated, reordered or mixed, and each session begins and ends where it should |
| SessionReport.StoredReportIsTrue | mfa-monitor/src/session_tracker.rs:249-317 | all-authorised holds if and only if every entry is authorised, and the lists of nodes seen and failing have exactly the entries' names, each once |
| SessionReport.StoredMaximaAreTrue | mfa-monitor/src/session_tracker.rs:270-317 | the longest verification and the number of nodes are attained by the stored entries and exceeded by none |
| SessionReport.StoredFieldsAreTrue | mfa-monitor/src/session_tracker.rs:249-317 | times, duration, heartbeat count and both hashes are those of the first and last entry |
| SessionReport.StoredCountsAreTrue | mfa-monitor/src/session_tracker.rs:249-317 | the counts, the average and the chain flag are those of the entries |
| SessionFiles.SessionDir.WriteSession | mfa-monitor/src/session_tracker.rs:338-389 | the report's file is written over any of the same name; the index, begun anew if it cannot be read, grows by its hash and is hashed as a whole |
| SessionFiles.IndexHashCoversAll | mfa-monitor/src/session_tracker.rs:376-382 | the index hash is of all file hashes, in order |
| SessionFiles.SessionDir.VerifyIntegrity | mfa-monitor/src/session_tracker.rs:428-437 | the file against the first index entry of its name |
| SessionFiles.FileHoldsTheLast | mfa-monitor/src/session_tracker.rs:338-349 | a file holds the last report written under its name |
| SessionFiles.UntouchedFilePassesExactlyIf | mfa-monitor/src/session_tracker.rs:428-437 | an untouched file passes if and only if the last report of its name is, as text, the first |
| SessionFiles.TamperingIsSeen | mfa-monitor/src/session_tracker.rs:428-437 | a changed file passes if and only if its text is the first report of its name |
| SessionFiles.SameFileExactlyIf | mfa-monitor/src/session_tracker.rs:256-268 | two reports share a file if and only if their sessions have one source, first timestamp and first link |
| SessionFiles.PassesExactlyIfSameEntries | mfa-monitor/src/session_tracker.rs:428-437 | in terms of entries: an untouched file passes if and only if the first and last session in it have the same entries |
| SessionSplit.StartedTwice | mfa-monitor/src/session_tracker.rs:175-187 | a start entry received twice begins two sessions |
| SessionTracker.RefuseUntouchedFile | mfa-monitor/src/session_tracker.rs:428-437 | a run of tracker and directory that stores two different sessions in one file, which the integrity check then refuses untouched |
| ImaLog.NthNewline | mfa-agent/src/protocol/mod.rs:269-272 | the newline that ends the given line, or too few lines |
| ImaLog.DeltaIsExact | mfa-agent/src/protocol/mod.rs:228-245 | above the floor, the wrapped 64-bit delta is between 0 and 20 if and only if the true one is |
| ImaLog.VerifyIma | mfa-agent/src/protocol/mod.rs:222-304 | the flag survives if and only if the count rule and, where an aggregate is known, the prefix-aggregate rule hold |
| ImaLog.ImaValidMeans | mfa-agent/src/protocol/mod.rs:222-304 | what an accepted report means, with the floor of 200, the step of 20 and the hashed prefix written out |
| ImaLog.ChainVerifier.VerifyNode | mfa-agent/src/main.rs:2129-2150 | the trackers hold each node's last report, and the result is judged against it |
| ImaLog.ChainVerifier.VerifyChain | mfa-agent/src/main.rs:2032-2053 | the same for a chain of attestations with the verifier's own last |
| ImaLog.AcceptedStepExtends | mfa-agent/src/protocol/mod.rs:252-304 | an accepted log extends the one before, whose claimed count was its line count |
| ImaLog.AcceptedRunIsAppendOnly | mfa-agent/src/protocol/mod.rs:222-304 | over whole runs each accepted log extends all earlier ones and counts grow by at most 20 per report |
| ImaLog.HonestGrowthIsAccepted | mfa-agent/src/tpm/mod.rs:144-161 | an honest log of at least 200 lines that grew by 0 to 20 lines is accepted |
| ImaLog.HonestHistoryIsAccepted | mfa-agent/src/protocol/mod.rs:222-304 | over whole histories, a node whose every report is honest, long enough and grown by at most 20 lines is never refused |
| ImaLog.AppendOnlyExactlyWithBaseline | mfa-agent/src/protocol/mod.rs:819-822 | accepted runs of a node are append-only if and only if the database lists the node |
| ImaLog.NoBaselineAcceptsTruncation | mfa-agent/src/protocol/mod.rs:819-822 | two accepted reports of an unlisted node, the second log empty |
| DetailText.VerifyPcrs | mfa-agent/src/protocol/mod.rs:205-220 | matches if and only if for no quoted value the first baseline entry of its index has another value |
| DetailText.OneQuoted | mfa-agent/src/protocol/mod.rs:205-216 | one quoted value adds its index and both values to the mismatches exactly if that entry has another value |
| DetailText.QuotedInOrder | mfa-agent/src/protocol/mod.rs:205-216 | mismatches come in the order of the quote |
| DetailText.HexReadsBack | mfa-agent/src/protocol/mod.rs:212-213 | two hexadecimal digits per byte, the high one first |
| DetailText.NegativeReadsBack | mfa-agent/src/audit/mod.rs:722-737 | printed negative numbers are read back down to the least 64-bit one |
| DetailText.ParsePcrMismatches | mfa-agent/src/audit/mod.rs:751-767 | the shrinking-slice loop finds what a scan of every position finds |
| DetailText.ScanFindsMarkers | mfa-agent/src/audit/mod.rs:751-767 | the parser finds an index if and only if somewhere `PCR`, a number below 256 and ` MISMATCH` follow each other |
| DetailText.MismatchesReadBack | mfa-agent/src/audit/mod.rs:751-767 | the indices read back begin with the differing ones in quote order, and are exactly those if and only if the later details hold no such marker |
| DetailText.ProcessNameAddsMismatch | mfa-agent/src/protocol/mod.rs:205-317 | a new process named after a marker adds its index to every list of mismatches |
| DetailText.CountReadsBack | mfa-agent/src/audit/mod.rs:706-712 | the count of an accepted IMA report is read back for all values, whatever the other details say |
| DetailText.DeltaReadsBack | mfa-agent/src/audit/mod.rs:722-737 | so is its growth |
| DetailText.FirstHasNoDelta | mfa-agent/src/audit/mod.rs:722-737 | a first report is read as a growth v if and only if the first `/d+` of the later details is followed by the number v |
| DetailText.ProcessNameAddsDelta | mfa-agent/src/protocol/mod.rs:248-317 | in the line the code prints, a new process named `/d+` and a number gives a first report that growth |
| DetailText.DecReadsBack | mfa-agent/src/audit/mod.rs:706-712 | decimal text is digits whose value is the number printed |
| ByteDiversity.PopcountPerByte | mfa-agent/xdp-entropy.c:233-239 | the word-parallel popcount is the sum over the four bytes |
| ByteDiversity.PopcountGrows | mfa-agent/xdp-entropy.c:233-239 | setting one more bit adds one, for all words |
| ByteDiversity.ParallelPopcountCountsBits | mfa-agent/xdp-entropy.c:233-239 | it counts bits: setting any bit adds one exactly if it was clear |
| ByteDiversity.RecordByte | mfa-agent/xdp-entropy.c:227-229 | after a byte the bitmap stands for the set with that byte |
| ByteDiversity.BitmapCounts | mfa-agent/xdp-entropy.c:220-239 | the popcounts of the bitmap sum to the number of distinct bytes |
| ByteDiversity.FillBitmap | mfa-agent/xdp-entropy.c:220-229 | the loop reads exactly the bytes within length, limit and packet |
| ByteDiversity.SumPopcounts | mfa-agent/xdp-entropy.c:230-240 | the sum of the parallel popcounts of the words |
| ByteDiversity.CountUnique | mfa-agent/xdp-entropy.c:215-241 | exactly the number of distinct byte values among the bytes read |
| ByteDiversity.BytesReadAre | mfa-agent/xdp-entropy.c:223-227 | the bytes read are the first min(len, 1500) behind the offset |
| FlowTable.ConnKeyIsInjective | mfa-agent/xdp-entropy.c:195-198 | two flows share a key only if they share address and ports |
| FlowTable.CapIsNeverReached | mfa-agent/xdp-entropy.c:316-317 | for a measured payload the 70% cap lowers neither threshold |
| FlowTable.TableIsExact | mfa-agent/xdp-entropy.c:200-211 | after any sequence of packets each tracked flow has its saturated packet count, and only a full table lacks a flow |
| FlowTable.CountersAreExact | mfa-agent/xdp-entropy.c:200-211 | each tracked flow's counter and phase in terms of its packets, and only a table of 64 lacks a flow |
| FlowTable.PktCountIs | mfa-agent/xdp-entropy.c:200-211 | the count returned is the number of the flow's packets measured before |
| FlowTable.FullTableIsFrozen | mfa-agent/xdp-entropy.c:208-210 | a full table keeps exactly its flows |
| FlowTable.TrackedFlowPhase | mfa-agent/xdp-entropy.c:312-317 | a tracked flow's packets are judged at 80 for the first twenty and at 85 ever after |
| FlowTable.RefusedFlowStaysAtHandshake | mfa-agent/xdp-entropy.c:208-210 | a flow refused by the full table is judged at 80 forever |
| XdpFilter.Classify | mfa-agent/xdp-entropy.c:245-311 | a packet's class by its headers; a measured payload runs to the end of the packet |
| XdpFilter.Filter.GetPktCount | mfa-agent/xdp-entropy.c:200-211 | returns the count before this packet and leaves the table with it |
| XdpFilter.Filter.Process | mfa-agent/xdp-entropy.c:245-327 | every counter, histogram and flow changes as the packet's class says, and the verdict is the class's |
| XdpFilter.Filter.ProcessTcp | mfa-agent/xdp-entropy.c:273-327 | the same from the port checks on |
| XdpFilter.Filter.ProcessAllowed | mfa-agent/xdp-entropy.c:297-327 | the same from the payload bounds on |
| XdpFilter.Filter.ProcessPayload | mfa-agent/xdp-entropy.c:307-327 | size, diversity, phase and threshold decide the verdict and the counters |
| XdpFilter.Filter.ThresholdFor | mfa-agent/xdp-entropy.c:312-317 | counts the packet in its flow and gives the capped threshold of the count before it |
| XdpFilter.MeasureDiversity | mfa-agent/xdp-entropy.c:318-321 | the number of distinct values among the first min(plen, 1500) payload bytes |
| XdpFilter.TraceAccounting | mfa-agent/xdp-entropy.c:245-327 | over any trace: total = passed + three drops + bypassed; exempt = bypassed + empty + size histogram - entropy histogram; entropy drops never exceed measured packets |
| XdpFilter.TraceTable | mfa-agent/xdp-entropy.c:200-211 | the flow table after a trace depends on its measured packets only |
| XdpFilter.FilterTrace | mfa-agent/xdp-entropy.c:245-327 | the filter run over any trace has the maps and gave the verdicts that the trace theorems speak of |
| XdpFilter.MeasuredVerdict | mfa-agent/xdp-entropy.c:303-323 | the verdict on a measured packet after any trace, in terms of the trace alone |
| XdpPolicy.VerdictsAreCounted | mfa-agent/xdp-entropy.c:245-327 | over any trace, as many packets pass as the passed counter and the bypassed packets say, and as many are dropped as the three drop counters say |
| XdpPolicy.ClosedPacketsAreDropped | mfa-agent/xdp-entropy.c:249-296 | from header bytes: ARP passes, what is not TCP over IPv4 is dropped, and so is a TCP packet none of whose ports is open to the role |
| XdpPolicy.PlaintextPortsPass | mfa-agent/xdp-entropy.c:277-285 | port 22 passes, and 8443 at the monitor passes uncounted |
| XdpPolicy.CheckedPortsByPayload | mfa-agent/xdp-entropy.c:297-321 | on a checked port a malformed packet is dropped, less than 128 payload bytes pass, and the rest is measured from its payload on |
| XdpPolicy.SameFlowExactlyIf | mfa-agent/xdp-entropy.c:312-313 | two packets are one flow if and only if source address and both ports are the same |
| XdpPolicy.HistogramsCount | mfa-agent/xdp-entropy.c:181-193 | over any trace each bucket has counted exactly its packets |
| XdpPolicy.DiversityIs | mfa-agent/xdp-entropy.c:318-321 | what is measured is the number of distinct values among the first 1500 bytes |
| TableHash.WalkEntries | mfa-agent/src/netfilter/mod.rs:102-126 | the offset loop feeds exactly the masked entries |
| TableHash.HashInput | mfa-agent/src/netfilter/mod.rs:88-127 | everything fed to the hash: metadata, then the masked entries |
| TableHash.WalkMasksAllCounters | mfa-agent/src/netfilter/mod.rs:102-126 | a table that splits into entries is visited byte for byte, counter bytes as zero and all others unchanged |
| TableHash.WalkIsCounterBlind | mfa-agent/src/netfilter/mod.rs:102-126 | two tables feed the same bytes if and only if they agree outside the counters |
| TableHash.MetadataIsInjective | mfa-agent/src/netfilter/mod.rs:92-101 | the metadata can be read back from what was fed |
| TableHash.HashInputIsCounterBlind | mfa-agent/src/netfilter/mod.rs:88-127 | equal input if and only if equal metadata and agreement outside the counters |
| TableHash.WalkOfEntries | mfa-agent/src/netfilter/mod.rs:102-126 | any list of entries that name their length in bytes 90 and 91 is fed entry by entry with bytes 96 to 111 as zeros |
| TableHash.WalkShortEntry | mfa-agent/src/netfilter/mod.rs:113-123 | an entry of at most 112 bytes is fed as it is |
| TableHash.TablesAreCounterBlind | mfa-agent/src/netfilter/mod.rs:102-126 | two such lists feed the same bytes if and only if they have the same entries but for bytes 96 to 111 |
| TableHash.MetadataLayout | mfa-agent/src/netfilter/mod.rs:92-101 | the metadata is twelve little-endian words in the source's order |

## Left out

- Circuit: closing of connections and teardown of a chain, and AES-GCM sealing failures; a connection is a direct call
  with at most one cell back. A hop that cannot be reached or is busy is one whose caller waits for ever, as
  the code's retry loops do, so a circuit is built through listening idle hops.
- DualAuthority and OrchestratorSession: modelled on values as step machines, so mutexes, atomics and one-shot channels
  appear as enabledness and phases of a request rather than as objects updated in place; memory ordering is not captured.
- BothAuthoritiesAgreed: takes the outcome of each attestation as given; what vm4's chain checks are worth is not stated,
  since the code fixes them to true.
- CapIsNeverReached: for payloads under 2^32 / 7 bytes, beyond which the 32-bit product wraps; no frame is that long.
- MeasuredVerdict: for packets under the same length.
- VerifyInitiate: does not model the encoding of the signed bytes; the TPM's answer on the signature is a parameter.
- AuditLogger.Write: appends succeed, and the 64-bit sequence number does not wrap; the tier, forensic capture and node
  records are part of an entry's body, which the chain does not look into.
- TextLines: white space is ASCII white space and text is its bytes; invalid UTF-8 read in mid-character is not modelled.
- ReadNewLines: the file is read in one look; a write between two reads of one poll is a later poll.
- HandleEntry: each message is handled as one step, though the code takes the state lock more than once; the dashboard's
  recent-entry lists, alerts, averages and node status, and the stored forensic files, are not modelled.
- CrossVerifySources: heartbeats are below 2^63, where the code's signed difference is exact.
- ProcessEntry: takes the parsed entry with absent fields defaulted.
- VerifyInternalChain: the hash of an entry printed again is part of the entry, since it depends on the library's key
  ordering; no agreement with the original log is claimed.
- WriteSession: writing succeeds.
- DetailText: details other than PCR mismatches and accepted IMA reports, among them the count and delta of a refused
  IMA report, and all other detail parsers.
- VerifyIma: the hash-equality checks of `verify_attestation` after the IMA part, which do not change the verdict here.
- HashInput: the byte order is taken as little-endian; retrieving the table from the kernel; data that does not split into entries is covered by the walk itself.
- `classify_tier`, session tokens, collection from /proc and /sys, BPF loading, the sysmon counters, command-line prompts,
  credential set-up and configuration.
