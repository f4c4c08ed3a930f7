# Ganji-DAC, verified

A Dafny model of a database access-control proxy. Clients speak Redis RESP, the MongoDB wire protocol, TDS,
MySQL or PostgreSQL to the proxy; it cuts the byte stream into messages, asks a policy engine about them, writes
audit events, and then forwards the message upstream or answers with an error frame. A second task copies the
server's bytes to the same client. Administrators edit rules through an API. Around this sit a credential cache
with a clock and a paged view of the audit log.

`dafny verify dfyconfig.toml` checks everything.

## How it is put together

| file | what it holds |
|---|---|
| `Bytes`, `Texts`, `Decimal`, `Options` | bytes and integer fields, UTF-8 validity and trimming, decimal numbers |
| `Streams` | the read side of a connection, and how a stream falls into frames |
| `Rules`, `Engine`, `Admin` | conditions, the engine, and the handlers that edit it |
| `AuditEvents`, `Tunnel`, `Interleaving` | events, what the inspecting task does, and both tasks under every schedule |
| `Redis`, `MongoWire`, `Mongo`, `TdsPackets`, `TdsErrors`, `Mssql`, `MySql`, `Postgres` | the protocols |
| `Credentials`, `AuditLog` | the cache and its client, the sinks and the paged query |
| `EndToEnd` | from the administrators' runs to the bytes a server receives |

Readers, framers, builders, the engine, the cache, the sinks and the session loops are methods and classes with the
source's loops and state. Each is proved equal to a function of its input, and the theorems are about those functions.

## Parameters of the model

- `Codec`: lossy UTF-8 and UTF-16 decoding, encoding, and the case maps. `World`: the regex engine, CIDR matching and
  the clock. `Policy`: the answer to the k-th evaluation of a session, so rules may change and the map may be iterated
  differently between any two evaluations. Every theorem holds for all of them. UTF-8 validity, trimming and
  substring search are written out.
- usize is 64 bits wide and arithmetic wraps as in a release build.
- A stream is the bytes still to come; its end stands for end of stream and for a failing read. Writes are appended to
  traces. In `Interleaving` writes go out in pieces of any size, and a task that fails or ends takes no further step.
- A session's frames are a function of the client's bytes, so the sequential loops give the program of the inspecting
  task, and `Interleaving` runs that program against the copying task under every schedule.

## Results that say no

- A TDS message that arrives in several packets is forwarded with the first packet's header. It equals what was read,
  and would be read back as itself, exactly when there was one packet (`TdsPackets.ForwardedVerbatimIffSinglePacket`). So
  the server reads the messages the proxy judged exactly when each came in a single packet
  (`Mssql.ServerReadsConnectionIff`, `Mssql.ServerReadsTunnelIff`), and `Mssql.ServerCanReadMore` is an input where it reads
  one that was never judged.
- The first two messages of an MSSQL connection are forwarded whatever their kind. Every batch that goes upstream was
  judged and logged under its text exactly when neither of them is a batch (`Mssql.BatchesAreVouchedIff`).
  `EndToEnd.DangerousBatchesStayOut` is stated under both conditions.
- The command of an OP_MSG is judged exactly when its body is the first section (`Mongo.CommandIsJudgedIff`).
- A Redis server that rejects malformed input reads all the proxy forwards exactly when all of it is well-formed arrays
  (`Redis.StrictServerReadsIff`).
- Error frames start at message boundaries of the client's stream under every schedule exactly when each chunk read from
  the server is made of whole messages (`Interleaving.AlwaysAlignedIff`). The copying task reads up to 64 KiB at a time
  and does not look.
- Error packets are read back exactly up to a size: 32739 code units for TDS, 50331591 bytes for OP_MSG, payloads under
  2^24 bytes for MySQL, messages without NUL for PostgreSQL. Each is an if-and-only-if.
- "Not expired" means that less than the ttl has passed exactly when the ttl is at most 2^64 minus the longest time between
  two clock readings (`Credentials.ExpiryIsFreshnessIff`, `Credentials.SafeTtls`).
- After an invalidation the cache can hold an older credential again exactly when a fetch of that id was under way
  (`Credentials.InvalidationIsFinalIff`).
- The audit file is its successful writes exactly when no write fails part-way (`AuditLog.FileIsItsWritesIff`).
- The decision on a request is independent of the map's iteration order exactly when tied rules agree
  (`Engine.OutcomeFixedIffTiesAgree`); next to the default guard, a dangerous query gets through in some order exactly
  when an Allow or Alert rule of priority 1 or less decides it (`Admin.DangerIsDeniedIff`).
- A toggle that read a rule before it was deleted writes it back (`Admin.ToggleCanUndoADelete`). A delete is final exactly
  when no write of that id is still to be made (`Admin.DeleteIsFinalIff`).
- SQL text without an ALL_HEADERS block is kept whole exactly when its first four bytes do not look like a length inside the
  payload (`TdsPackets.HeaderlessTextIsKeptIff`).

## Model

| member | source | states |
|---|---|---|
| `Engine.StableSortIsTheOne` | crates/policy/src/engine.rs:43-45 | whatever stable sort by priority the library uses, its result is the one list that is sorted, holds the same rules and keeps their order inside each priority |
| `Engine.OrdersGiveExactlyTheVerdicts` | crates/policy/src/engine.rs:42-96 | over all iteration orders, collect, sort and first match yield exactly the actions of the enabled matching rules of least priority, and the default denial when none matches |
| `Engine.AllowedOnlyByARule` | crates/policy/src/engine.rs:42-96 | in every iteration order a request is allowed only by an enabled matching Allow or Alert rule of least priority, which the result names; a request no rule matches is denied and names none |
| `Engine.ResultsSpeakForTheirRule` | crates/policy/src/engine.rs:50-95 | Deny denies and Allow allows under the rule's name, Alert allows under the name with a mark; the default denial has its own reason |
| `Engine.OutcomeFixedIffTiesAgree` | crates/policy/src/engine.rs:42-96 | the allowed flag is the same in every iteration order if and only if the matching rules tied at the least priority agree on it |
| `Engine.DistinctPrioritiesFixTheResult` | crates/policy/src/engine.rs:42-96 | with pairwise distinct priorities the reason and the matched rule are fixed too |
| `Engine.RemovingADeadRuleKeepsTheMeaning` | crates/policy/src/engine.rs:30-32 | removing a disabled rule, or one preceded at smaller priority by an enabled rule with a subset of its conditions, changes no verdict on any request |
| `Engine.DisablingIsDeleting` | crates/api/src/routes/rules.rs:113-134 | for evaluation a disabled rule is a deleted one |
| `Engine.AddingIsMonotone` | crates/policy/src/engine.rs:24-32 | a fresh Deny rule creates no new way to be allowed, a fresh Allow or Alert rule no new way to be denied, whatever the priorities |
| `Engine.AddingADenyOnlyShrinks` | crates/policy/src/engine.rs:24-32 | with distinct priorities a fresh Deny rule only shrinks the set of allowed requests and an Allow or Alert rule only grows it |
| `Engine.PolicyEngine.UpsertRule` | crates/policy/src/engine.rs:24-27 | stores the rule under its own id and nothing else changes |
| `Engine.PolicyEngine.RemoveRule` | crates/policy/src/engine.rs:30-32 | removes the id and says whether it was there |
| `Engine.PolicyEngine.ListRules` | crates/policy/src/engine.rs:35-39 | returns exactly the stored rules, as many as there are keys, sorted by priority |
| `Engine.PolicyEngine.Evaluate` | crates/policy/src/engine.rs:42-96 | the loop over the sorted snapshot returns a verdict in the order-free sense, reached in some iteration order |
| `Engine.PolicyEngine.LoadDefaultRules` | crates/policy/src/engine.rs:99-136 | leaves the two default rules on top of what was there |
| `Rules.PaddingDoesNotHideDanger` | crates/policy/src/rule.rs:139-157 | whitespace around a query does not change whether it is dangerous |
| `Rules.DangerIsDecidedByTheText` | crates/policy/src/rule.rs:139-157 | of the upper-cased and trimmed text: opening with DROP or TRUNCATE or holding XACT_ABORT is dangerous; of the others a DELETE or UPDATE is dangerous if and only if it holds no WHERE; all else is harmless |
| `Rules.BrokenPatterns` | crates/policy/src/rule.rs:66-137 | a pattern that is no regex is compared as plain text with the user, database or IAM role, and fits no query |
| `Rules.HoursAreCounted` | crates/policy/src/rule.rs:101-127 | a time range holds at exactly the hours counted from its start up to its end, around midnight if need be, on the listed days or all |
| `Rules.ConditionsConjoin` | crates/policy/src/rule.rs:162-169 | a rule matches exactly when it is enabled and every part of its condition list does |
| `Rules.WrappedRangeIsComplement` | crates/policy/src/rule.rs:101-127 | a range of hours and its reverse, which wraps past midnight, split the day |
| `Texts.PaddingIsTrimmed` | crates/policy/src/rule.rs:141 | trimming drops exactly the outer whitespace |
| `Texts.CoreIsTheOne` | crates/proxy/src/mssql.rs:412-418 | a decoded text has exactly one core between outer NULs and then outer whitespace, and the two trims find it |
| `Texts.FirstWordIs` | crates/proxy/src/redis.rs:263-266 | the first word is what stands between leading whitespace and the next whitespace or the end |
| `Texts.Utf8ValidIff` | crates/proxy/src/mongodb.rs:264 | bytes pass as UTF-8 if and only if they are the encoding of some Unicode scalar values |
| `Admin.AdminApi.CreateRule` | crates/api/src/routes/rules.rs:59-76 | refuses an id that exists, else stores the rule under it |
| `Admin.AdminApi.UpdateRule` | crates/api/src/routes/rules.rs:80-95 | refuses an unknown id, else stores the body under the id of the path |
| `Admin.AdminApi.DeleteRule` | crates/api/src/routes/rules.rs:99-109 | removes the id or reports it missing |
| `Admin.AdminApi.ToggleRule` | crates/api/src/routes/rules.rs:113-134 | flips the enabled flag of the one rule with that id, or reports it missing |
| `Admin.AdminApi.Reload` | crates/proxy/src/policy_loader.rs:57-59 | the upsert loop over the file, which keeps every rule under its own id |
| `Admin.LastDuplicateWins` | crates/proxy/src/policy_loader.rs:33-59 | after a reload an id holds the last rule of the file that carries it, and untouched ids hold what they held |
| `Admin.ReloadAlone` | crates/api/src/routes/policy_file.rs:51-54 | a reload whose writes run in file order, with nothing in between, is the upsert of the whole file |
| `Admin.AloneIsAtomic` | crates/api/src/routes/rules.rs:59-134 | a handler with nothing in between its check and its write is the atomic operation |
| `Admin.ToggleTwiceRestores` | crates/api/src/routes/rules.rs:113-134 | two toggles in a row restore the rules |
| `Admin.ToggleCanUndoADelete` | crates/api/src/routes/rules.rs:113-134 | an input where a deleted rule comes back: a toggle read it before the delete and writes it after |
| `Admin.DeleteIsFinalIff` | crates/api/src/routes/rules.rs:59-134 | a deleted id stays away in every later run that does not create or reload it if and only if no write of that id was still to be made at the delete |
| `Admin.RunKeepsInv` | crates/api/src/routes/rules.rs:59-134 | every run of interleaved handlers that leaves the guard alone keeps the guard, the priority bound and every rule under its own id |
| `Admin.GuardedRulesDenyDanger` | crates/policy/src/engine.rs:42-111 | with the guard in the map all the time and every Allow or Alert rule above priority 1, an evaluation does not allow a dangerous query, whatever it collects while the map is edited |
| `Admin.DangerIsDeniedInEveryRun` | crates/policy/src/engine.rs:99-111 | from the default rules on, in every such run and every iteration order, each dangerous query is denied |
| `Admin.DangerIsDeniedDuringEdits` | crates/policy/src/engine.rs:42-111 | the same for an evaluation during which the map goes through several states of such a run |
| `Admin.DangerIsDeniedIff` | crates/policy/src/engine.rs:42-111 | beside the guard, a dangerous query is denied in all orders if and only if no Allow or Alert rule of priority 1 or less decides it |
| `Admin.DefaultRulesDecide` | crates/policy/src/engine.rs:99-136 | under the default rules alone exactly the harmless requests on a working day before nine or from eighteen o'clock on are allowed |
| `Streams.FramesConserve` | crates/proxy/src/redis.rs:119-128 | any read loop splits its input into frames in order and one tail, losing and repeating nothing |
| `Streams.TailStops` | crates/proxy/src/redis.rs:119-128 | the loop ends, at a tail where reading fails, and every frame took at least one byte |
| `Streams.FramesOfConcat` | crates/proxy/src/redis.rs:119-128 | a stream of well-formed frames is read back as those frames, whatever follows |
| `Streams.FramesOfParts` | crates/proxy/src/mongodb.rs:110-114 | a stretch that is read to its end does not influence how the rest is read |
| `Tunnel.ProgramProjects` | crates/proxy/src/mongodb.rs:109-173 | one event per inspected message in order, upstream exactly the messages that were not blocked, one error frame per blocked message |
| `Interleaving.RunKeepsInv` | crates/proxy/src/mongodb.rs:100-191 | under every schedule of byte-wise writes, log, upstream and client bytes are determined by how far each task has come |
| `Interleaving.ClientOutput` | crates/proxy/src/mongodb.rs:100-191 | the client's bytes are a merge in which each error frame is contiguous and in order, deleting them leaves the upstream bytes in order, and at most one write is unfinished behind them |
| `Interleaving.CompleteOutput` | crates/proxy/src/mssql.rs:179-258 | when both tasks have ended, nothing is missing on the client side, upstream or in the log |
| `Interleaving.AuditBeforeForward` | crates/proxy/src/mssql.rs:190-239 | at every state of every schedule an event is in the log before the first byte of its message is upstream, at most one event is ahead, and blocked messages contribute no byte |
| `Interleaving.MergedStreamParses` | crates/proxy/src/mongodb.rs:100-191 | if chunks and error frames are whole frames, the client reads at every state the frames of the finished writes in order and then those of the write under way |
| `Interleaving.AlwaysAlignedIff` | crates/proxy/src/mongodb.rs:176-188 | with an error frame to send, every error frame begins at a message boundary under every schedule if and only if every chunk the copying task reads is made of whole frames |
| `Interleaving.ServerReadsWhatWasJudged` | crates/proxy/src/mongodb.rs:109-173 | when forwarded messages are frames by themselves, the server reads at every state exactly the forwarded ones of the first n messages, all n events being in the log |
| `Interleaving.ServerReadsSomeOfWhatWasJudged` | crates/proxy/src/redis.rs:116-179 | a server that may stop at a message it does not accept reads at every state a first part of what some first n judged messages forward, all n events being in the log |
| `Decimal.ParseOfDigits` | crates/proxy/src/redis.rs:229-246 | parsing undoes printing for every usize, and overflow reads as zero |
| `Decimal.ParsesLikeRust` | crates/proxy/src/redis.rs:229-246 | leading zeros and one plus sign do not matter; too large numbers and anything else read as zero |
| `Redis.ReadRespCommand` | crates/proxy/src/redis.rs:207-267 | the reader returns the command at the head of the stream, leaves the rest, and fails exactly where the grammar does |
| `Redis.ReadArray` | crates/proxy/src/redis.rs:228-261 | the counted loop over bulk strings gathers the name and the raw bytes of the whole array |
| `Redis.RawIsWhatWasRead` | crates/proxy/src/redis.rs:207-267 | the raw bytes of a command are exactly the bytes it took off the stream |
| `Redis.CommandReadsBack` | crates/proxy/src/redis.rs:207-267 | reading undoes the array encoding of any arguments, embedded CRLF included, whatever follows |
| `Redis.InlineReadsBack` | crates/proxy/src/redis.rs:263-266 | an inline command is its line, ended by CRLF or LF, and its name what stands in the text between leading whitespace and the next whitespace or the end |
| `Redis.EmptyLineReads` | crates/proxy/src/redis.rs:222-227 | an empty line is a command without a name |
| `Redis.NoHeaderTakesTwoBytes` | crates/proxy/src/redis.rs:236-250 | a line in the place of a bulk header that does not begin with `$` stands for a length of zero |
| `Redis.StreamReadsBack` | crates/proxy/src/redis.rs:116-179 | a stream of encoded commands is read back as those commands with nothing left over |
| `Redis.HandleCommand` | crates/proxy/src/redis.rs:130-177 | judges, logs, then refuses or forwards one command |
| `Redis.TunnelWithInspection` | crates/proxy/src/redis.rs:116-179 | the loop does what judging every frame of the input in turn does |
| `Redis.HandleConnection` | crates/proxy/src/redis.rs:67-95 | logs the connection decision first and serves the tunnel only when it is allowed |
| `Redis.ConnectionIsLogged` | crates/proxy/src/redis.rs:67-95 | a connection is evaluated with its address, unknown user, kind and database, and begins with the event of that; a denied one goes no further |
| `Redis.DenyRespIsOneError` | crates/proxy/src/redis.rs:25 | the refusal is one RESP error, whatever follows it |
| `Redis.WholeSession` | crates/proxy/src/redis.rs:116-179 | for any list of commands: one event each in order, upstream exactly the encodings of the unblocked ones, one `DENY_RESP` for each of the others |
| `Redis.SessionConserves` | crates/proxy/src/redis.rs:116-179 | on arbitrary bytes every byte is in one command or the tail; a command is forwarded verbatim exactly when policy allows it and its upper-cased name is not on the list, and refused with one `DENY_RESP` otherwise; its event says which, and whether policy or list decided |
| `Redis.ServerReadsTheUnblocked` | crates/proxy/src/redis.rs:116-179 | on arbitrary client bytes, what was sent upstream is read back as exactly the commands that were not blocked |
| `Redis.StrictServerReadsIff` | crates/proxy/src/redis.rs:207-267 | on arbitrary client bytes, a server that takes well-formed arrays only reads the unblocked commands up to the first that is none, and all of them if and only if all are well-formed |
| `Redis.StrictNameIsJudged` | crates/proxy/src/redis.rs:228-261 | the name such a server finds in a command is the name the proxy judged |
| `TdsPackets.ReadTdsMessage` | crates/proxy/src/mssql.rs:270-303 | the packet loop returns the reassembled message and leaves the rest |
| `TdsPackets.FragmentsReassemble` | crates/proxy/src/mssql.rs:270-303 | however a payload is cut into packets with the end bit on the last, reading returns the first header and the whole payload |
| `TdsPackets.ReadsExactlyMessages` | crates/proxy/src/mssql.rs:270-303 | on arbitrary bytes reading succeeds exactly when the stream starts with the packets of a message, and takes 8 bytes per extra packet more than it returns |
| `TdsPackets.ForwardedVerbatimIffSinglePacket` | crates/proxy/src/mssql.rs:289-293 | the message equals the bytes read, and would be read back as itself, if and only if it came in one packet |
| `TdsPackets.ForwardingKeepsMessagesIff` | crates/proxy/src/mssql.rs:289-293 | whoever reads a sequence of forwarded messages sees the same messages if and only if each came in a single packet |
| `TdsPackets.ReadingsDiffer` | crates/proxy/src/mssql.rs:289-293 | an input where the two readings differ: one message for the proxy, two for whoever reads it as forwarded |
| `TdsPackets.FragmentedBatchYieldsItsText` | crates/proxy/src/mssql.rs:392-419 | a batch with an ALL_HEADERS block yields the core of its text under every fragmentation, skipping exactly the block |
| `TdsPackets.TextIgnoresFragmentation` | crates/proxy/src/mssql.rs:270-303 | two fragmentations of one payload give the same text |
| `TdsPackets.HeaderlessTextIsKeptIff` | crates/proxy/src/mssql.rs:401-410 | without a header block nothing is skipped if and only if the first four bytes are no length inside the payload |
| `TdsPackets.OrdinaryHeaderlessText` | crates/proxy/src/mssql.rs:392-419 | short text, or text with a non-NUL second code unit under 64 KiB, is extracted whole but for outer NULs and whitespace |
| `TdsPackets.IsEncryptedPrelogin` | crates/proxy/src/mssql.rs:306-331 | true exactly when the first in-range non-empty ENCRYPTION option before the terminator has value 1 or 3, on every byte string |
| `TdsPackets.Login7YieldsItsFields` | crates/proxy/src/mssql.rs:346-389 | for any layout whose pairs point to the encoded user and database those are returned, and the defaults when empty |
| `TdsPackets.Login7Defaults` | crates/proxy/src/mssql.rs:346-389 | packets too short for a LOGIN7, and pairs that point out of the packet, give the defaults |
| `TdsErrors.BuildTdsErrorPacket` | crates/proxy/src/mssql.rs:468-522 | the buffer writes produce the ERROR and DONE packet for the message |
| `TdsErrors.ErrorPacketReadsBackIff` | crates/proxy/src/mssql.rs:511-515 | the packet, with anything behind it, is read back whole if and only if the message has at most 32739 code units |
| `TdsErrors.ErrorPacketDecodes` | crates/proxy/src/mssql.rs:468-522 | a client's decoder recovers message, server name and numbers, every length field consistent |
| `Mssql.HandleMessage` | crates/proxy/src/mssql.rs:197-237 | batches are judged, logged and then forwarded or refused; other messages pass |
| `Mssql.TunnelWithInspection` | crates/proxy/src/mssql.rs:190-239 | the loop does what judging every message of the input in turn does |
| `Mssql.HandleConnection` | crates/proxy/src/mssql.rs:56-165 | PRELOGIN exchange, then the login, with every early return |
| `Mssql.HandleLogin` | crates/proxy/src/mssql.rs:93-164 | encrypted or plain login, decision, event, refusal or tunnel |
| `Mssql.ConnectionIsLogged` | crates/proxy/src/mssql.rs:117-148 | a plain connection is evaluated for the user and database its LOGIN7 carries, or the defaults, its event says so, and the login goes on or is refused with the reason |
| `Mssql.EncryptedConnectionIsLogged` | crates/proxy/src/mssql.rs:93-113 | after an encrypted answer the connection is evaluated and logged for an unknown user |
| `Mssql.NothingUpstreamBeforeApproval` | crates/proxy/src/mssql.rs:63-164 | apart from the client's first message, forwarded whatever its kind, nothing is sent upstream unless the connection was evaluated for the second message, allowed and logged |
| `Mssql.ServerReadsConnectionIff` | crates/proxy/src/mssql.rs:56-165 | upstream are the messages before the tunnel, of whatever kind, and then the tunnel's; the server reads those very messages if and only if each came in a single packet |
| `Mssql.BatchesAreVouchedIff` | crates/proxy/src/mssql.rs:56-239 | over a whole connection every SQL batch goes upstream right after the event of an allowed query with its text, if and only if neither message sent before the tunnel is a batch |
| `Mssql.FirstMessageIsNotJudged` | crates/proxy/src/mssql.rs:63-88 | an input where it fails: a batch as first message is forwarded, and no event carries a query |
| `Mssql.SecondMessageIsNotJudged` | crates/proxy/src/mssql.rs:116-155 | another: a batch in the place of LOGIN7 is forwarded with the connection's event only |
| `Mssql.ClientReadsConnectionIff` | crates/proxy/src/mssql.rs:86-155 | the server's answers before the tunnel come first on the client's side, and the client reads them as they are, whatever follows, if and only if each came in a single packet |
| `Mssql.ServerReadsTunnelIff` | crates/proxy/src/mssql.rs:190-303 | the server reads exactly the messages the tunnel forwarded if and only if each came in a single packet |
| `Mssql.ServerCanReadMore` | crates/proxy/src/mssql.rs:190-303 | an input where it does not: a message in two packets passes without an event, and the server reads a second message in it |
| `Mssql.DeniedLoginStops` | crates/proxy/src/mssql.rs:139-148 | a denied login is logged, answered with one error packet and never forwarded |
| `Mssql.SessionConserves` | crates/proxy/src/mssql.rs:190-239 | on arbitrary bytes every byte is in one message or the tail; batches are judged as the engine says, logged with their text, and refused with the reason |
| `Mssql.RepliesReadBackIff` | crates/proxy/src/mssql.rs:468-522 | the client reads every error packet of a session as built, whatever follows, if and only if every denial reason the policy gave in it has at most 32739 code units |
| `Mssql.ClientStreamParses` | crates/proxy/src/mssql.rs:179-257 | at every state of every schedule the client reads the finished error packets and chunks message by message, each kind in order, and then what is readable of the write under way |
| `Mssql.RepliesAlwaysAlignedIff` | crates/proxy/src/mssql.rs:179-257 | the error packets of a session start at message boundaries under every schedule if and only if the chunks read from the server are whole messages |
| `MongoWire.ReadMongoMessage` | crates/proxy/src/mongodb.rs:198-214 | the reader returns the message at the head of the stream, or fails on a length outside 16 bytes to 48 MiB |
| `MongoWire.MessagesCarryTheirLength` | crates/proxy/src/mongodb.rs:116-122 | every message has at least 16 bytes and its own announced length, so the short branch is never taken |
| `MongoWire.ReadsExactlyMessages` | crates/proxy/src/mongodb.rs:198-214 | on arbitrary bytes a read succeeds exactly when the stream starts with a message of 16 bytes to 48 MiB that announces its own length |
| `MongoWire.MongoIsPrefixStable` | crates/proxy/src/mongodb.rs:198-214 | a message is read the same whatever follows |
| `MongoWire.ExtractMongoCommand` | crates/proxy/src/mongodb.rs:222-266 | the cursor never leaves the payload and finds the command name |
| `MongoWire.CommandIsFirstKey` | crates/proxy/src/mongodb.rs:222-266 | a name is extracted exactly from kind-0 documents whose first element has a valid UTF-8 key, and is that key in lower case |
| `MongoWire.WalkFindsTheBody` | crates/proxy/src/mongodb.rs:216-233 | a reader of all sections finds the first key of the body behind any number of document sequences |
| `MongoWire.ProxyFindsBodyIff` | crates/proxy/src/mongodb.rs:222-266 | the proxy finds the command that a reader of all sections finds if and only if the body is the first section |
| `MongoWire.BuildOpMsgError` | crates/proxy/src/mongodb.rs:271-318 | the buffer writes produce the nested error document in an OP_MSG |
| `MongoWire.ErrorReplyReadsBackIff` | crates/proxy/src/mongodb.rs:271-318 | the reply is accepted whole by the proxy's own reader if and only if the message has at most 50331591 bytes |
| `MongoWire.ErrorReplyDecodes` | crates/proxy/src/mongodb.rs:271-318 | a BSON reader that checks every length recovers ok 0, the message, code 13 and the request answered |
| `Mongo.HandleMessage` | crates/proxy/src/mongodb.rs:116-171 | messages with a command are judged, logged and forwarded or refused; all others pass |
| `Mongo.TunnelWithInspection` | crates/proxy/src/mongodb.rs:109-173 | the loop does what judging every message of the input in turn does |
| `Mongo.HandleConnection` | crates/proxy/src/mongodb.rs:60-88 | logs the connection decision first and serves the tunnel only when it is allowed |
| `Mongo.ConnectionIsLogged` | crates/proxy/src/mongodb.rs:60-88 | a connection is evaluated with its address, unknown user, kind and database, and begins with the event of that; a denied one goes no further |
| `Mongo.SessionConserves` | crates/proxy/src/mongodb.rs:109-173 | on arbitrary bytes every byte is in one message or the tail; commands are judged as the engine says, logged, and refused naming the request |
| `Mongo.ReplyNamesItsRequest` | crates/proxy/src/mongodb.rs:125-160 | responseTo is the request id, byte for byte |
| `Mongo.CommandIsJudgedIff` | crates/proxy/src/mongodb.rs:125-171 | an OP_MSG with a command is judged under it if and only if its body is the first section; else it passes without evaluation and event |
| `Mongo.RepliesReadBackIff` | crates/proxy/src/mongodb.rs:155-164 | every error frame of a session is read as built, whatever follows, if and only if every error text in it has at most 50331591 bytes |
| `Mongo.ClientStreamParses` | crates/proxy/src/mongodb.rs:100-191 | at every state of every schedule the client reads the finished error frames and chunks message by message, each kind in order, and then what is readable of the write under way |
| `Mongo.RepliesAlwaysAlignedIff` | crates/proxy/src/mongodb.rs:100-191 | the error frames of a session start at message boundaries under every schedule if and only if the chunks read from the server are whole messages |
| `MySql.ReadMySqlPacket` | crates/proxy/src/mysql.rs:212-224 | returns header and payload of the announced length and leaves the rest |
| `MySql.ParseHandshakeResponse` | crates/proxy/src/mysql.rs:232-268 | the cursor never leaves the payload, on any packet |
| `MySql.HandshakeReadsBack` | crates/proxy/src/mysql.rs:232-268 | parsing undoes encoding for NUL-free user and database and any auth data up to 255 bytes, with or without the closing NUL |
| `MySql.SendMySqlError` | crates/proxy/src/mysql.rs:271-294 | the writes produce the ERR packet with its three length bytes |
| `MySql.ErrorPacketReadsBackIff` | crates/proxy/src/mysql.rs:284-290 | the packet is read back whole if and only if its payload stays under 2^24 bytes, a message of at most 16777206 bytes |
| `MySql.ErrorPacketDecodes` | crates/proxy/src/mysql.rs:271-290 | code, SQL state and message are where a client looks for them |
| `Postgres.ReadStartupMessage` | crates/proxy/src/postgres.rs:214-254 | reads the announced length, keeps the raw bytes and parses the parameters |
| `Postgres.ReadParameters` | crates/proxy/src/postgres.rs:234-246 | the pairing loop stops at an empty key or when pieces run out, later values replacing earlier ones |
| `Postgres.StartupReadsBack` | crates/proxy/src/postgres.rs:214-254 | for any NUL-free parameters with non-empty keys the last user and the last database are returned, and raw is the message |
| `Postgres.SendPgError` | crates/proxy/src/postgres.rs:257-267 | the writes produce the ErrorResponse |
| `Postgres.ErrorResponseDecodesIff` | crates/proxy/src/postgres.rs:257-267 | a client decodes exactly S, V, C and M if and only if the message has no NUL |
| `Postgres.ErrorLengthIsRightIff` | crates/proxy/src/postgres.rs:261-263 | the length field is right if and only if the message stays under 4 GiB |
| `Credentials.ExpiryIsFreshnessIff` | crates/secrets/src/types.rs:49-54 | for a clock whose readings lie at most a span apart, running backwards included, not expired means that less than the ttl has passed, in nanoseconds, if and only if the ttl is at most 2^64 minus the span |
| `Credentials.SafeTtls` | crates/secrets/src/types.rs:49-54 | for the readings the clock can give the largest safe ttl is 2^64 - 8210266876799 seconds |
| `Credentials.HitsUntilTheTtl` | crates/secrets/src/cache.rs:23-34 | a lookup hits exactly while fewer nanoseconds than the ttl have passed since the entry was stored |
| `Credentials.CredentialCache.Get` | crates/secrets/src/cache.rs:23-34 | returns the unexpired entry, else misses and removes it |
| `Credentials.CredentialCache.Set` | crates/secrets/src/cache.rs:37-47 | stores under the id, a zero ttl replaced by the default |
| `Credentials.CredentialCache.Invalidate` | crates/secrets/src/cache.rs:50-54 | removes one id |
| `Credentials.CredentialCache.InvalidateAll` | crates/secrets/src/cache.rs:57-60 | empties the cache |
| `Credentials.SecretsClient.FetchAndCache` | crates/secrets/src/client.rs:100-153 | a fetched secret is stored and returned, an error changes nothing |
| `Credentials.SecretsClient.GetDbCredential` | crates/secrets/src/client.rs:42-51 | the unexpired entry, else the result of a fetch, which is then cached |
| `Credentials.SecretsClient.RefreshCredential` | crates/secrets/src/client.rs:54-57 | after a failed refresh the id is absent; other ids are untouched |
| `Credentials.SecretsClient.WatchRotation` | crates/secrets/src/client.rs:82-91 | the entry goes exactly when the secret is rotating |
| `Credentials.HitsAreNeverStale` | crates/secrets/src/cache.rs:23-60 | over all timed interleaved runs a hit carries the credential of the last store for the id, not invalidated since, what AWS answered to a question of the run, with less than its ttl passed in nanoseconds |
| `Credentials.InvalidationIsFinalIff` | crates/secrets/src/client.rs:54-57 | after an invalidation the cache never again holds what AWS said before it, in any continuation, if and only if no fetch of that id was waiting to be stored when it ran |
| `Credentials.CacheHoldsTheLast` | crates/secrets/src/cache.rs:23-60 | after every run each cached entry is the one the run last stored under that id |
| `Credentials.MissesAreExplained` | crates/secrets/src/cache.rs:23-60 | the cache holds an id exactly when something is last stored for it and no late expiry removal hit it since |
| `Credentials.SweepsWereExpired` | crates/secrets/src/cache.rs:25-29 | late removals only hit ids that a lookup saw expired |
| `Credentials.CachingIsFetchingUpToTtl` | crates/secrets/src/client.rs:42-91 | over any sequence of lookups, refreshes and invalidations of any ids, an answer is what AWS says at this call, or said at an earlier call for the id, stored less than the ttl ago, with no refresh or invalidation of it since |
| `AuditLog.AuditLogger.AddSink` | crates/audit/src/logger.rs:23-26 | the new sink comes last and no sink is held twice |
| `AuditLog.AuditLogger.LogEvent` | crates/audit/src/logger.rs:28-34 | every sink gets the event once, however much of it the sinks before it wrote |
| `AuditLog.FileSink.Write` | crates/audit/src/logger.rs:68-81 | what gets to the file is the line and a line feed, or some front of them |
| `AuditLog.FileIsItsWritesIff` | crates/audit/src/logger.rs:68-81 | the file holds exactly the lines of the writes that succeeded if and only if every failed write had put out nothing |
| `AuditLog.TornWriteCosts` | crates/api/src/routes/audit.rs:92-107 | the front a failed write left joins the next line: that event is lost with it, and when the joined line is not UTF-8 nothing logged later is seen |
| `AuditLog.LinesDecode` | crates/api/src/routes/audit.rs:93-95 | a line is text exactly when it is the UTF-8 encoding of some characters, without its carriage return; any other stops the reading |
| `AuditLog.LoadEvents` | crates/api/src/routes/audit.rs:92-107 | the loop keeps the events of parsable lines and stops at an unreadable one |
| `AuditLog.FilterKeeps` | crates/api/src/routes/audit.rs:110-140 | filtering keeps exactly the events that pass every filter given: type up to ASCII case, part of the user, part of the address, outcome |
| `AuditLog.EventNamesAreSnakeCase` | crates/audit/src/types.rs:6-23 | the type is compared under its variant's name in snake case |
| `AuditLog.Logs` | crates/api/src/routes/audit.rs:82-157 | total, page and has_more of the filtered events |
| `AuditLog.PageSizes` | crates/api/src/routes/audit.rs:89-150 | a page shows what is left behind the offset, up to the limit asked for, 100 by default and never more than 1000 |
| `AuditLog.WalkCoversTheLog` | crates/api/src/routes/audit.rs:142-150 | walking by the limit until has_more is false ends, and the pages are exactly the filtered events |
| `AuditLog.WalkAdvancesIff` | crates/api/src/routes/audit.rs:89-150 | a page moves the walk forward if and only if the limit is not zero |
| `AuditLog.SeenGrows` | crates/audit/src/logger.rs:68-81 | appending bytes never changes what a filter has shown, torn last lines included |
| `AuditLog.WalkOverGrowingLog` | crates/api/src/routes/audit.rs:82-157 | a walk while bytes are appended reads exactly the matching events of the last state of the file, none twice and none missed |
| `AuditLog.LoggedEventsAreSeen` | crates/api/src/routes/audit.rs:92-107 | if parsing undoes serialising and no write fails part-way, the file shows exactly the events whose write succeeded |
| `EndToEnd.EngineDeniesDanger` | crates/policy/src/engine.rs:42-111 | at any evaluation of any session, under rules any permitted run leads to, a dangerous query is denied |
| `EndToEnd.ForwardedBatchesAreInOrder` | crates/proxy/src/mssql.rs:190-239 | every batch the tunnel forwards was granted by its own evaluation, is logged under its text, and is not dangerous |
| `EndToEnd.DangerousBatchesStayOut` | crates/proxy/src/mssql.rs:56-303 | on a connection whose messages came in single packets and whose first two are no batches, under every schedule the server reads the first two and then only forwarded messages of judged and logged ones; every batch it reads was granted by its own evaluation, is logged under its text, and is not dangerous |
| `EndToEnd.FragmentedDangerIsBlocked` | crates/proxy/src/mssql.rs:190-303 | a dangerous batch is blocked however it is cut into packets |
| `EndToEnd.DangerousCommandsStayOut` | crates/proxy/src/mongodb.rs:109-173 | under every schedule the server reads only forwarded messages of judged and logged ones; a command it finds in an OP_MSG, walking all sections, was granted by its own evaluation, is logged under its name and is not dangerous, if and only if the body is the first section |
| `EndToEnd.DangerousNamesStayOut` | crates/proxy/src/redis.rs:116-179 | under every schedule a server that takes well-formed arrays only reads a first part of the forwarded commands of judged and logged ones, each granted by its own evaluation, on no list, logged under its name, and not dangerous |
| `EndToEnd.ListedNamesStayOut` | crates/proxy/src/redis.rs:116-179 | the same for a server that reads RESP as the proxy does, inline and malformed commands included, once the inspecting task has ended |

## Left out

- Sockets, listeners, task spawning and upstream connects; a failed connect ends a session before it begins.
- Partial writes followed by a socket error: the failing task takes no further step. That the mutex is released then and the
  other task fails on the same broken socket is not modelled.
- The PostgreSQL and MySQL query tunnels and connection handlers: they inspect one arbitrary read chunk at a time, so nothing at
  message level is decided by that code.
- The transparent TLS tunnel: plain copying. The session stops at the logged decision, which the source takes whatever it is.
- Regular expressions, CIDR matching, JSON and case mapping are parameters; request ids, timestamps and log lines for operators
  are dropped.
- One clock reading serves a whole evaluation; the source reads the clock again for every time range.
- Engine.PolicyEngine.Evaluate: sees one state of the map; evaluations that edits overlap are in `Admin.CollectedDuring`, which
  lets them miss or see any edited rule, and the end-to-end results hold for those.
- The API server and the proxy are separate processes, each with its own engine. The model lets the handlers edit the rules a
  session is judged by, which admits more runs than there are.
- Interleaving.AuditBeforeForward: "in the log" means that the call of the logger has returned; the file sink hands the bytes to
  a background thread, so the event need not be in the file yet.
- Admin.ReloadAlone: writes of one reload are otherwise allowed to land in any order, which admits more runs than the source has.
- Postgres.ReadParameters: keys are compared as bytes; lossy decoding gives "user" or "database" from no other bytes.
- Credentials.SafeTtls: the clock library is not part of this model; its readings are taken to lie between 1970, before which
  it panics, and the end of the year 262142, as chrono 0.4 documents.
- Credentials.CachingIsFetchingUpToTtl: calls in sequence; interleaved tasks are covered by `Credentials.HitsAreNeverStale` and
  `Credentials.InvalidationIsFinalIff`. Ages count from the end of a fetch.
- AuditLog.FileSink.Write: does not model what the call reports, because success can be reported before or without the bytes
  being in the file. Writes to one file are taken one after the other, in order.
- AuditLog.SeenGrows: of a line that is only partly there a reader is taken to see no event, unless only its line feed is
  missing.
- Mssql.ClientStreamParses: server chunks are whole messages and denial reasons have at most 32739 code units; the exact
  conditions are `Mssql.RepliesAlwaysAlignedIff` and `Mssql.RepliesReadBackIff`.
- Mongo.ClientStreamParses: server chunks are whole messages and error texts fit the reader's 48 MiB limit; the exact
  conditions are `Mongo.RepliesAlwaysAlignedIff` and `Mongo.RepliesReadBackIff`.
- EndToEnd.ListedNamesStayOut: once the inspecting task has ended, because the proxy's reader takes an unfinished last line for
  a command; a server's own splitting of inline commands is not modelled.
- EndToEnd.DangerousCommandsStayOut: commands are those of OP_MSG; other op codes pass unjudged, as in the source.
- EndToEnd.DangerousBatchesStayOut: batches are messages of kind 1; SQL in other message kinds, such as RPC requests, passes
  unjudged, as in the source.
- MariaDB/MySQL packets of 2^24 - 1 bytes that continue in a second packet, CloudWatch and stdout sinks, the simulation endpoint, rule
  export, HTTP authentication, the CLI, the web console and deployment files: thin plumbing or user interface.
