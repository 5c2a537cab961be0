# A verified model of the sassrv RV client core

sassrv speaks the "RV" publish/subscribe wire protocol. This project models two of its
parts in Dafny and proves what they guarantee:

- the subject grammar and the per-connection subscription tables of
  `include/sassrv/ev_rv.h`: segment counting, the `_INBOX.` and `_RV.` tests, the
  exact-subject table `RvSubMap`, the wildcard table `RvPatternMap` with its `RvWildMatch`
  nodes, and the service-prefix buffer of `RvMsgIn`;
- the client connection `EvRvClient` of `src/ev_rv_client.cpp`: the `process` loop (the
  fixed-size handshake records, then length-prefixed frames), `dispatch_msg` with the two
  start-up replies, the write queue with its save buffer, connection set-up
  (`initialize_state`, `rv_connect`, `make_inbox`), and the subscription forwarding rules
  (`subscribe`, `unsubscribe`, `get_nsub`, `match_filter`, `on_sub`, `on_unsub`, `on_psub`,
  `on_punsub`, `fwd_pat`, `do_psub`, `publish`, `timer_expire`).

Modules, one per file:

| module | file | contents |
|---|---|---|
| `Base` | base.dfy | bytes, 16/32-bit integers with explicit wrap-around, big-endian words |
| `Subject` | subject.dfy | segments of a subject, `count_segments`, the inbox and restricted tests |
| `SubTable` | sub_map.dfy | `RvSubMap` as a class over a map, with its operations specified by functions |
| `PatternTable` | pattern_map.dfy | `RvPatternMap` and `RvWildMatch` |
| `MsgIn` | msg_in.dfy | the prefix buffer of `RvMsgIn` as one array holding `prefix[]` then `sub_buf[]` |
| `ClientRules` | client_rules.dfy | the string rules and decision helpers of the client, as functions |
| `ClientProtocol` | client_protocol.dfy | the protocol engine as functions of the connection state, and lemmas about them |
| `ClientConn` | client_conn.dfy | `EvRvClient` as a class whose methods update its fields in place |

The class methods in `ClientConn` are each proved against a function of `ClientProtocol`
or `ClientRules`. The data loop is written once, as `FrameLoop`, over a dispatcher passed
in; `DataLoop` is that loop with `dispatch_msg`. Its reassembly, monotonicity and
forwarding lemmas are proved for any dispatcher with the needed property, then applied to
`dispatch_msg`. The lemmas about those functions carry the protocol guarantees:

- a process call never dispatches a partial frame;
- bytes arriving later do not change what was done with earlier ones (reassembly);
- frames are forwarded whole and in order;
- messages queued during the handshake are written once, in order, when the session is up.

Each hash-table operation is specified by a function on the table, and lemmas state its
refcount transitions and collision flags.

Four facts shape the model:

- **Client states.** The enum is not part of this model: its header is not included. The
  states are ordered as the comment at src/ev_rv_client.cpp:327 lists them, and `ErrClose`
  is below all of them. `queue_send` tests `>= DATA_RECV` before `== ERR_CLOSE`, which only
  makes sense with that ordering. A consequence, which the model keeps, is that `process`
  in `ErrClose` takes the `default:` branch into the data loop.
- **Codec and socket.** The envelope decoder (`msg_in.unpack`) and the encoder
  (`RvMsgWriter`) are function parameters, `decode` and `encode`. The socket's write queue
  is a sequence of chunks, one per `append` call.
- **Behaviours of the code the model keeps:**
  - an init refusal makes `recv_info` return the daemon's error code, and a code of 0
    counts as success (src/ev_rv_client.cpp:507-515);
  - any non-zero dispatch status ends `process` and moves the client to `ErrClose`
    (src/ev_rv_client.cpp:382-385);
  - the listen on the control inbox is sent only once the "connected" advisory
    arrives (src/ev_rv_client.cpp:565-612).
- **Corrected behaviour.** Three members carry the evidently intended behaviour of a
  "## Findings" row rather than the code as written: `MsgIn.MsgIn.SetPrefix` (through
  `MsgIn.MsgIn.CopyBody`) tests for an empty body before its first read, so the name "."
  reads nothing outside the name; `ClientConn.EvRvClient.OnSub` passes the stripped reply
  on; and `ClientConn.EvRvClient.InitializeState` stores the version 5.4.2. The as-written
  halves are `MsgIn.SetPrefixFirstReadAsWritten` and `MsgIn.SetPrefixReadsOutOfBounds`,
  `ClientRules.OnSubArgsAsWritten`, and `ClientRules.VersionAfterResetAsWritten`.

## Model

| member | source | states |
|---|---|---|
| Base.Inc32 | include/sassrv/ev_rv.h:135 | a 32-bit counter increment wraps from the all-ones value to 0 and is otherwise +1 |
| Base.Dec32 | include/sassrv/ev_rv.h:159 | a 32-bit counter decrement wraps from 0 to the all-ones value and is otherwise -1 |
| Base.BigEndian32 | src/ev_rv_client.cpp:334 | `get_u32<MD_BIG>` reads the first four bytes most significant first: the word is below 2^24 exactly when its first byte is 0 |
| Base.BigEndianRoundTrip | src/ev_rv_client.cpp:408 | reading back the four big-endian bytes of a word gives the word |
| Base.WordsSnoc | src/ev_rv_client.cpp:422-423 | flipping one more word appends exactly its four big-endian bytes |
| Subject.Tokens | include/sassrv/ev_rv.h:45-56 | every subject, the empty one included, has at least one segment |
| Subject.JoinTokens | include/sassrv/ev_rv.h:45 | joining the segments with '.' gives back the subject |
| Subject.TokensHaveNoDots | include/sassrv/ev_rv.h:45 | no segment contains a '.' |
| Subject.TokensCount | include/sassrv/ev_rv.h:45-56 | a subject has one segment more than it has '.' bytes |
| Subject.CountSegments | include/sassrv/ev_rv.h:45-56 | `count_segments` returns 1 plus the number of '.' bytes, truncated to 16 bits, which is the number of segments |
| Subject.FirstSegment | include/sassrv/ev_rv.h:58-64 | a subject starts with the dot-free word `w` followed by '.' exactly when it has two or more segments and the first is `w` |
| Subject.IsInboxSubject | include/sassrv/ev_rv.h:58-64 | definition of `is_inbox_subject`: longer than 7 bytes and starting with "_INBOX." (`InboxBySegments` restates it over segments) |
| Subject.IsRestrictedSubject | include/sassrv/ev_rv.h:67-73 | definition of `is_restricted_subject`: longer than 4 bytes and starting with "_RV.", or an inbox subject |
| Subject.InboxBySegments | include/sassrv/ev_rv.h:58-64 | `is_inbox_subject` holds exactly when the first segment is "_INBOX" and more follows the first '.' |
| Subject.RestrictedBySegments | include/sassrv/ev_rv.h:67-73 | `is_restricted_subject` holds exactly when it is an inbox, or the first segment is "_RV" and more follows |
| Subject.SystemBySegments | include/sassrv/ev_rv.h:70-71 | the "_RV." test holds exactly when the first segment is "_RV" and more follows the first '.' |
| Subject.BarePrefixesAreUnrestricted | include/sassrv/ev_rv.h:58-73 | "_INBOX." alone is no inbox and "_RV." alone is not restricted, while "_INBOX.x" and "_RV.x" are |
| Subject.InboxIsRestricted | include/sassrv/ev_rv.h:72 | every inbox subject is restricted |
| SubTable.BucketCount | include/sassrv/ev_rv.h:116-119 | the number of entries sharing a key's hash counts the key itself exactly when it is present, so `hcnt` exceeds the other entries by that |
| SubTable.PutNew | include/sassrv/ev_rv.h:112-125 | a first `put` creates the entry with refcnt 1 and msg_cnt 0, reports `RV_SUB_OK` and count 1, and flags a collision exactly when another entry shares the hash |
| SubTable.PutExisting | include/sassrv/ev_rv.h:119-127 | a repeated `put` changes only that entry's refcnt, to one more (wrapping at 2^32), reports `RV_SUB_EXISTS` with the new count, and flags a collision |
| SubTable.PutTimesCounts | include/sassrv/ev_rv.h:112-128 | starting from an absent subject, the i-th `put` reports count i and leaves refcnt i |
| SubTable.PutKeepsValid | include/sassrv/ev_rv.h:112-128 | `put` keeps every live entry at refcnt at least 1 while refcnt stays below 2^32 - 1 |
| SubTable.UpdcntOnlyCounts | include/sassrv/ev_rv.h:131-137 | `updcnt` bumps only the matching entry's msg_cnt (wrapping) and leaves every other field and entry alone; an absent subject returns `RV_SUB_NOT_FOUND` and changes nothing |
| SubTable.FindCollision | include/sassrv/ev_rv.h:138-149 | `find` reports whether the key is present, and its collision flag is true exactly when some other entry shares the hash |
| SubTable.RemSemantics | include/sassrv/ev_rv.h:151-163 | `rem` on an absent subject reports `RV_SUB_NOT_FOUND` and changes nothing; otherwise it returns the decremented refcnt and drops the entry exactly when that reaches 0 |
| SubTable.PutThenRem | include/sassrv/ev_rv.h:104-163 | `put` followed by `rem` restores the table, and with it `sub_count()` |
| SubTable.PutRemTimes | include/sassrv/ev_rv.h:112-163 | after n `put`s, the i-th `rem` reports n - i, and the subject is gone exactly after the n-th |
| SubTable.RemCollisionMeaning | include/sassrv/ev_rv.h:174-185 | marking an entry with the sentinel and scanning its hash chain finds a live entry exactly when another entry with that hash is not marked |
| SubTable.SubMap.SubCount | include/sassrv/ev_rv.h:104-106 | `sub_count` is the number of distinct subjects in the table |
| SubTable.SubMap.Release | include/sassrv/ev_rv.h:107-109 | `release` empties the table |
| SubTable.SubMap.Put | include/sassrv/ev_rv.h:112-128 | the table becomes the `put` function of the old table, status, count and collision are its reply, and `sub_count()` grows by one exactly for a new subject |
| SubTable.SubMap.Updcnt | include/sassrv/ev_rv.h:131-137 | the table becomes the `updcnt` function of the old table, and the status is its reply |
| SubTable.SubMap.Find | include/sassrv/ev_rv.h:138-149 | changes nothing; status and collision are those of the `find` reply |
| SubTable.SubMap.Rem | include/sassrv/ev_rv.h:151-163 | the table becomes the `rem` function of the old table, status, count and collision are its reply, and `sub_count()` drops by one exactly when the subject is removed |
| SubTable.SubMap.RemCollision | include/sassrv/ev_rv.h:174-185 | marks the entry with the all-ones sentinel and returns whether the hash chain still holds an unmarked entry |
| PatternTable.NewWildMatch | include/sassrv/ev_rv.h:200-206 | a new node holds the pattern, refcnt 1 and msg_cnt 0, and the pattern length whenever it fits 16 bits |
| PatternTable.PatPutSemantics | include/sassrv/ev_rv.h:244-258 | a new prefix gets an outer entry with count 0 and an empty node list and `RV_SUB_OK`; an existing one is left exactly as it was and reported with a collision |
| PatternTable.PatFindCollision | include/sassrv/ev_rv.h:272-282 | the pattern `find` reports presence, and its collision flag is true exactly when another prefix shares the hash |
| PatternTable.PatRemCollisionMeaning | include/sassrv/ev_rv.h:293-307 | marking a node and walking every node list on the hash chain finds a live node exactly when another node, in any entry with that hash, is not marked |
| PatternTable.PatternMap.Put | include/sassrv/ev_rv.h:244-258 | the table becomes the pattern `put` function of the old one, and the entry returned is the stored one |
| PatternTable.PatternMap.FindRoute | include/sassrv/ev_rv.h:260-266 | returns the entry exactly when the prefix is present, and `RV_SUB_NOT_FOUND` otherwise |
| PatternTable.PatternMap.Find | include/sassrv/ev_rv.h:267-282 | as `FindRoute`, with the collision flag true exactly when another prefix shares the hash |
| PatternTable.PatternMap.RemCollision | include/sassrv/ev_rv.h:293-307 | marks the node with the sentinel; the result says whether any node on the hash chain is still unmarked |
| MsgIn.ServiceBody | include/sassrv/ev_rv.h:362-363 | the copied service name is the name, or the name without its last byte when that is '.' |
| MsgIn.ServicePrefix | include/sassrv/ev_rv.h:355-373 | the built prefix fits the buffer, ends in '.', and starts with '_' whenever the name does not |
| MsgIn.ServicePrefixExamples | include/sassrv/ev_rv.h:355-373 | "7500", "_7500" and "_7500." all give the prefix "_7500." |
| MsgIn.ServicePrefixShape | include/sassrv/ev_rv.h:355-373 | a name that fits is kept whole: stripping the added '_' and the final '.' gives back the name without its trailing '.' |
| MsgIn.MsgIn.PrefixStart | include/sassrv/ev_rv.h:374-376 | `prefix_start()` is the `prefix_len` bytes ending where `sub_buf` begins |
| MsgIn.MsgIn.Init | include/sassrv/ev_rv.h:342-350 | `init` zeroes the subject, reply, suffix and prefix lengths |
| MsgIn.MsgIn.constructor | include/sassrv/ev_rv.h:340 | the constructor leaves the lengths zero, as `init` does |
| MsgIn.MsgIn.SetPrefix | include/sassrv/ev_rv.h:355-373 | length 0 clears the prefix; otherwise `prefix_start()` is the `ServicePrefix` of the name; `sub_buf` is never touched; the name "." gets the corrected copy loop of the first finding, not the out-of-bounds read as written |
| MsgIn.MsgIn.CopyBody | include/sassrv/ev_rv.h:361-368 | the copy loop writes the name's last bytes, at most the buffer size minus 2, then '.', at the end of `prefix[]`; it tests for an empty body before the first read, the correction of the first finding, so the name "." copies nothing |
| MsgIn.MsgIn.PutUnderscore | include/sassrv/ev_rv.h:369-370 | one '_' goes in front of the copied name, one slot lower, and nothing else in the buffer changes |
| MsgIn.MsgIn.PreSubject | include/sassrv/ev_rv.h:377-380 | `pre_subject` points `prefix_len` bytes before `sub_buf`, and the span it names is the prefix followed by the subject |
| MsgIn.MsgIn.CatPreSubject | include/sassrv/ev_rv.h:381-387 | `cat_pre_subject` writes the prefix, the suffix and a NUL, returns `prefix_len` plus the suffix length, and leaves the rest of the buffer alone |
| ClientRules.Decimal | src/ev_rv_client.cpp:489 | the decimal digits of a number: all digits, none leading zero except for 0 itself |
| ClientRules.DecimalRoundTrip | src/ev_rv_client.cpp:489 | reading the digits back gives the number |
| ClientRules.DecimalLength | src/ev_rv_client.cpp:489 | a 32-bit number has at most ten digits |
| ClientRules.Atoi | src/ev_rv_client.cpp:202 | C's `atoi`: leading white space, an optional sign, then the digits that follow (a definition; `AtoiDecimal` is the lemma about it) |
| ClientRules.AtoiDecimal | src/ev_rv_client.cpp:202 | `atoi` reads back any number written in decimal |
| ClientRules.InboxName | src/ev_rv_client.cpp:481-492 | every name `make_inbox` builds is an inbox subject, eight bytes longer than the session and the number's digits |
| ClientRules.InboxNameParts | src/ev_rv_client.cpp:481-492 | an inbox name is an inbox subject made of "_INBOX.", the session, '.', then the number in decimal |
| ClientRules.NullControlInbox | src/ev_rv_client.cpp:133-135 | with no session the control inbox is "_INBOX..1" |
| ClientRules.ControlListenSubject | src/ev_rv_client.cpp:580-582 | the control listen subject is the control inbox with its last byte replaced by '>' |
| ClientRules.ControlListenOfInbox | src/ev_rv_client.cpp:580-582 | for an inbox name ending in ".1" the control listen is the inbox wildcard "_INBOX.<session>.>" |
| ClientRules.TruncateDaemon | src/ev_rv_client.cpp:193-196 | only the first 255 bytes of the daemon string are looked at |
| ClientRules.LastColon | src/ev_rv_client.cpp:201 | `strrchr` finds a ':' with no ':' after it, or reports none when there is no ':' |
| ClientRules.HostPart | src/ev_rv_client.cpp:214-223 | a leading "tcp:" or a bare "tcp" is removed, an empty host means none, and null mode is exactly the host "null" |
| ClientRules.ParseDaemon | src/ev_rv_client.cpp:191-225 | without a daemon string the port is kept and there is no host; otherwise the string is split at its last colon, or read as a bare port when all digits |
| ClientRules.ConnectPort | src/ev_rv_client.cpp:229-230 | port 0 becomes 7500, and any other port is kept |
| ClientRules.HostPartPlain | src/ev_rv_client.cpp:214-223 | a host that `tcp:` stripping does not touch is taken as it is |
| ClientRules.HostPartTcp | src/ev_rv_client.cpp:215-216 | "tcp:" in front of a plain host is removed |
| ClientRules.ParseDaemonAtColon | src/ev_rv_client.cpp:201-204 | with a last colon at i, the port is `atoi` of what follows and the host is parsed from what precedes |
| ClientRules.ParseDaemonNoColon | src/ev_rv_client.cpp:205-213 | with no colon, an all-digit string is a port with no host, and anything else is a host with the port kept |
| ClientRules.DaemonHostPort | src/ev_rv_client.cpp:199-230 | "host:port" gives that host and port, even when the host holds colons of its own |
| ClientRules.DaemonTcpHostPort | src/ev_rv_client.cpp:214-216 | "tcp:host:port" names the same host and port as "host:port" |
| ClientRules.DaemonSplitsAtLastColon | src/ev_rv_client.cpp:201-204 | any host text, then ':' and a decimal port, splits at that colon |
| ClientRules.DaemonBarePort | src/ev_rv_client.cpp:205-212 | a daemon string of digits only is that port, with no host |
| ClientRules.DaemonNoHost | src/ev_rv_client.cpp:214-220 | ":port" and "tcp:port" both leave no host and give the port |
| ClientRules.DaemonNullAndTcp | src/ev_rv_client.cpp:217-222 | "null" selects null mode, and a bare "tcp" names no host |
| ClientRules.LastColonUnique | src/ev_rv_client.cpp:201 | the colon `strrchr` finds is the one with no colon after it |
| ClientRules.FirstColon | src/ev_rv_client.cpp:254 | `strchr` finds a ':' with no ':' before it, or reports none |
| ClientRules.ServiceName | src/ev_rv_client.cpp:252-261 | when the first ':' is at an offset below 15 the service is exactly the text before it; otherwise it is the whole parameter |
| ClientRules.ServiceNameExamples | src/ev_rv_client.cpp:252-261 | "7500:extra" gives "7500", and "7500" stays as it is |
| ClientRules.FirstColonUnique | src/ev_rv_client.cpp:254 | the colon `strchr` finds is the one with no colon before it |
| ClientRules.UserIdCopy | src/ev_rv_client.cpp:269-276 | the stored user id is the whole parameter when it fits, and otherwise its first `cap - 1` bytes exactly; the stored length counts the NUL |
| ClientRules.StripServicePrefix | src/ev_rv_client.cpp:1093-1095 | a subject passes exactly when there is no prefix, or it is longer than the prefix and starts with it; the result is what follows the prefix |
| ClientRules.StripServicePrefixNonEmpty | src/ev_rv_client.cpp:1094 | with a non-empty prefix, a stripped subject is never empty |
| ClientRules.StripServicePrefixRoundTrip | src/ev_rv_client.cpp:1093-1101 | prefixing a non-empty subject and stripping the prefix gives the subject back |
| ClientRules.GetNsub | src/ev_rv_client.cpp:1083-1105 | succeeds exactly when the subject carries the prefix; the reply loses `prefix_len` bytes only when it is longer than that, and is otherwise unchanged |
| ClientRules.OnSubDropsReply | src/ev_rv_client.cpp:1130-1133 | as written, subject "A" with reply "R" reaches `subscribe` with an empty reply, while `get_nsub` found the reply "R" |
| ClientRules.Publish | src/ev_rv_client.cpp:820-843 | a subject is dropped exactly when writing is off or it is shorter than the prefix; otherwise `prefix_len` bytes are cut from it, and from the reply only when the reply is longer |
| ClientRules.PublishDoesNotCompare | src/ev_rv_client.cpp:831-841 | `publish` cuts the prefix length without comparing bytes, unlike `get_nsub`, and sends a subject as long as the prefix as the empty subject |
| ClientRules.Forwardable | src/ev_rv_client.cpp:1108-1122 | reference definition of `match_filter`: never an inbox subject; every other subject when there are no feed lists; otherwise only one some interactive feed pattern matches |
| ClientRules.ForwardableNeedsInteractive | src/ev_rv_client.cpp:1112-1121 | with broadcast or listen feeds but no interactive feeds, nothing is forwarded |
| ClientRules.PunsubForward | src/ev_rv_client.cpp:1163-1176 | a pattern unsubscribe is forwarded exactly when no subscriber is left and the literal prefix ends in '.', or one is left, all messages are forwarded and the prefix is empty |
| ClientRules.PunsubLastIsCatchAll | src/ev_rv_client.cpp:1172-1176 | with one subscriber left, a forwarded pattern unsubscribe in non-RV syntax is the cancel of ">" and needs all messages forwarded |
| ClientRules.PunsubKeepsShared | src/ev_rv_client.cpp:1166-1176 | with two or more subscribers left, nothing is forwarded |
| ClientRules.PatternSubject | src/ev_rv_client.cpp:1235-1241 | `do_psub` builds "prefix.>" or ">": the prefix, a '.' when it is non-empty, and a final '>' |
| ClientRules.PatternSubjectSegments | src/ev_rv_client.cpp:1235-1241 | the built wildcard has one segment more than the prefix, and its last segment is ">" |
| ClientRules.TokensDotSuffix | src/ev_rv_client.cpp:1238-1240 | appending ".>" to a subject appends the segment ">" |
| ClientRules.FwdPatSubject | src/ev_rv_client.cpp:1189-1206 | an RV-format pattern is sent as is; any other becomes the wildcard of its literal prefix, cut to 1021 bytes |
| ClientRules.FwdPatQueued | src/ev_rv_client.cpp:1207-1225 | something is queued exactly when the subject carries the service prefix and the stripped subject passes `match_filter`; it is that stripped subject |
| ClientRules.TrimNul | src/ev_rv_client.cpp:1046-1051 | one trailing NUL is dropped, and nothing else changes |
| ClientRules.TrimNulOfTerminated | src/ev_rv_client.cpp:1046-1047 | trimming a NUL-terminated string gives the string |
| ClientRules.InitialVersion | src/ev_rv_client.cpp:455-457 | the version the client announces is 5.4.2 |
| ClientRules.VersionResetDiffers | src/ev_rv_client.cpp:95-97 | as written, the reset never stores 5.4.2, and `vmin` keeps its old value |
| MsgIn.SetPrefixReadsOutOfBounds | include/sassrv/ev_rv.h:359-365 | as written, the first read from the service name falls outside it exactly when the name is "." |
| ClientProtocol.QueueSend | src/ev_rv_client.cpp:957-974 | in `DataRecv` the bytes are written at once, in `ErrClose` they are dropped, and otherwise they go behind the save buffer; nothing else changes |
| ClientProtocol.Flush | src/ev_rv_client.cpp:977-986 | the save buffer empties, and a non-empty one is written as one chunk |
| ClientProtocol.QueueAllEffect | src/ev_rv_client.cpp:957-974 | a run of queued messages piles up in `save_buf` in call order before `DataRecv`, vanishes in `ErrClose`, and is written message by message afterwards |
| ClientProtocol.QueueThenFlush | src/ev_rv_client.cpp:957-986 | queueing during the handshake and then flushing writes exactly one chunk: the old save buffer followed by the messages in order |
| ClientProtocol.FlushIdempotent | src/ev_rv_client.cpp:979 | a second flush writes nothing |
| ClientProtocol.Subscribe | src/ev_rv_client.cpp:1032-1058 | a subscription touches only the write queues: with writing off nothing changes, and in `DataRecv` exactly one message is written: the listen for the subject and the non-empty reply, each with a trailing NUL trimmed |
| ClientProtocol.Unsubscribe | src/ev_rv_client.cpp:1061-1080 | the same for a cancel: only the write queues change, nothing with writing off, and in `DataRecv` exactly one message is written: the cancel for the NUL-trimmed subject |
| ClientProtocol.SubscribeAll | src/ev_rv_client.cpp:597-602 | subscribing the broadcast feeds changes neither the state, the parameters nor the forwarded frames |
| ClientProtocol.SubscribeAllWrites | src/ev_rv_client.cpp:597-602 | in `DataRecv` each broadcast feed is written as one listen message, in list order, after what was there |
| ClientProtocol.InitEnvelope | src/ev_rv_client.cpp:432-462 | the init record always carries the version 5.4.2 |
| ClientProtocol.RecvInfo | src/ev_rv_client.cpp:495-562 | the reply succeeds exactly when accepted with a session or refused with code 0; only an accepted reply changes anything: session, control inbox "_INBOX.<session>.1", the init record re-sent with them, and `ConnRecv` |
| ClientProtocol.RecvConn | src/ev_rv_client.cpp:565-612 | succeeds exactly on the "connected" advisory, else fails with nothing changed; success leaves `DataRecv`, an empty save buffer, and parameters, session, control inbox and forwarded frames as they were |
| ClientProtocol.ControlListen | src/ev_rv_client.cpp:580-582 | the control listen subject is as long as the control inbox |
| ClientProtocol.Dispatch | src/ev_rv_client.cpp:616-630 | an unpack failure is ignored on an 8-byte frame and returned otherwise, with nothing changed |
| ClientProtocol.DispatchData | src/ev_rv_client.cpp:643-648 | in `DataRecv` a decoded frame succeeds exactly when its mtype is 'D' or 'A'; then it is forwarded and nothing else changes, otherwise the status is -1 and nothing changes |
| ClientProtocol.DispatchStartup | src/ev_rv_client.cpp:495-641 | before `DataRecv` nothing is forwarded; `InitRecv` goes to `ConnRecv` only on an accepted init reply, with the control inbox built from the session; other states succeed exactly on "connected", then enter `DataRecv` with the save buffer empty |
| ClientProtocol.RefusalWithZero | src/ev_rv_client.cpp:507-515 | a refusal whose error code is 0 counts as success and leaves the connection in `InitRecv` |
| ClientProtocol.ConnectedWrites | src/ev_rv_client.cpp:565-612 | "connected" writes, in order, the control listen, one listen per broadcast feed, then the saved bytes as one chunk |
| ClientProtocol.FrameLoop | src/ev_rv_client.cpp:328-343 | whatever the dispatcher, the read offset only moves forward and never passes the end of the buffer |
| ClientProtocol.DataLoopStops | src/ev_rv_client.cpp:328-343 | the data loop stops with under 8 bytes left, or with `need` set to the announced length when the frame is not all there |
| ClientProtocol.VersionRecordWords | src/ev_rv_client.cpp:405-412 | the version record is the big-endian encoding of {0, 4, 0} |
| ClientProtocol.InfoRecordWords | src/ev_rv_client.cpp:415-429 | the info record is 64 bytes: the seven prefix words in big-endian, then zeros |
| ClientProtocol.Handshake | src/ev_rv_client.cpp:345-377 | the handshake never moves the offset backwards or past the buffer |
| ClientProtocol.Process | src/ev_rv_client.cpp:322-386 | `process` never moves the read offset backwards or past the buffer |
| ClientProtocol.Finish | src/ev_rv_client.cpp:382-385 | a non-zero status sets `ErrClose` and changes nothing else; status 0 leaves the connection as it is |
| ClientProtocol.HandshakeWaits | src/ev_rv_client.cpp:348-362 | with too few bytes for the current handshake record, nothing is consumed, sent or changed |
| ClientProtocol.HandshakeVersion | src/ev_rv_client.cpp:351-359 | the version step consumes exactly 12 bytes, sends the 12-byte version record and moves to `InfoRecv` |
| ClientProtocol.HandshakeInfo | src/ev_rv_client.cpp:360-372 | the info step consumes exactly 64 bytes; a first word other than 1 is answered with the 64-byte info record and the state stays, and 1 is answered with the init record and `InitRecv` |
| ClientProtocol.HandshakeInData | src/ev_rv_client.cpp:373-374 | past the handshake states the handshake loop is the data loop |
| ClientProtocol.HandshakeComplete | src/ev_rv_client.cpp:346-374 | one buffer holding the version record and an info record with first word 1 leaves the version and init records sent, `InitRecv`, and the data loop from byte 76 |
| ClientProtocol.DataLoopStep | src/ev_rv_client.cpp:330-343 | a whole buffered frame is dispatched, the offset moves by exactly its length, and the loop goes on only when the status is 0 |
| ClientProtocol.DataLoopReassembly | src/ev_rv_client.cpp:330-338 | a run that stopped for want of bytes, resumed over the longer buffer, gives what one run over the longer buffer gives, so no partial frame is ever dispatched |
| ClientProtocol.HandshakeReassembly | src/ev_rv_client.cpp:345-377 | the same reassembly property through the handshake records |
| ClientProtocol.ProcessReassembly | src/ev_rv_client.cpp:322-386 | `process` as a whole: bytes arriving later do not change what was done with the bytes already there |
| ClientProtocol.HandshakeFrom | src/ev_rv_client.cpp:328-345 | in a handshake state, `process` is the handshake loop |
| ClientProtocol.DataLoopFrom | src/ev_rv_client.cpp:328-329 | from `InitRecv` on, or in `ErrClose`, `process` is the data loop |
| ClientProtocol.DispatchMonotone | src/ev_rv_client.cpp:616-649 | a dispatch that succeeds never lowers the state; it keeps it or moves to `ConnRecv` or `DataRecv` |
| ClientProtocol.DataLoopStaysInData | src/ev_rv_client.cpp:328-343 | the data loop never lowers the state and never leaves the data phase |
| ClientProtocol.DispatchForwards | src/ev_rv_client.cpp:643-646 | a dispatch forwards at most its own frame, and only in `DataRecv` |
| ClientProtocol.DataLoopForwards | src/ev_rv_client.cpp:330-343 | frames are forwarded in order, after those already forwarded; each is a complete frame of the buffer at a position the loop reached, whose length word is its length |
| ClientConn.EvRvClient.constructor | src/ev_rv_client.cpp:56-67 | a new client is in `VersRecv` with no parameters, no save buffer, no socket and no timer |
| ClientConn.EvRvClient.QueueSend | src/ev_rv_client.cpp:957-974 | the connection becomes `ClientProtocol.QueueSend` of the old one; the result says whether the bytes went to the socket |
| ClientConn.EvRvClient.FlushPendingSend | src/ev_rv_client.cpp:977-986 | the connection becomes `Flush` of the old one |
| ClientConn.EvRvClient.Subscribe | src/ev_rv_client.cpp:1032-1058 | with writing off nothing changes; otherwise a listen message for the NUL-trimmed subject and reply is queued |
| ClientConn.EvRvClient.Unsubscribe | src/ev_rv_client.cpp:1061-1080 | with writing off nothing changes; otherwise a cancel message for the NUL-trimmed subject is queued |
| ClientConn.EvRvClient.MatchFilter | src/ev_rv_client.cpp:1108-1122 | the result is `Forwardable`: never an inbox; everything with no feed lists; otherwise only when an interactive feed pattern matches |
| ClientConn.EvRvClient.OnSub | src/ev_rv_client.cpp:1125-1134 | a subscription is forwarded exactly when writing is on, the subject carries the prefix and passes the filter; it carries the intended behaviour of the third finding, sending the stripped subject and the stripped reply, where the code as written sends no reply |
| ClientConn.EvRvClient.OnUnsub | src/ev_rv_client.cpp:1137-1148 | an unsubscribe is forwarded only when no route is left, writing is on, and the stripped subject passes the filter |
| ClientConn.EvRvClient.FwdPat | src/ev_rv_client.cpp:1181-1226 | a listen or cancel message for exactly the subject `FwdPatQueued` gives is queued, and nothing when it gives none |
| ClientConn.EvRvClient.OnPsub | src/ev_rv_client.cpp:1151-1156 | with writing on, a pattern subscription forwards a listen message as `fwd_pat` does |
| ClientConn.EvRvClient.OnPunsub | src/ev_rv_client.cpp:1159-1178 | with writing on, and only as `PunsubForward` allows, a cancel message is forwarded as `fwd_pat` does |
| ClientConn.EvRvClient.DoPsub | src/ev_rv_client.cpp:1230-1251 | with writing on, a listen message for "prefix.>" (">" for none) is queued |
| ClientConn.EvRvClient.Publish | src/ev_rv_client.cpp:820-843 | a dropped subject, or a frame the encoder refuses, reports success and changes nothing; otherwise the encoded frame is queued, and the result is true only when it was appended and the push succeeded |
| ClientConn.EvRvClient.TimerExpire | src/ev_rv_client.cpp:306-313 | acts, and reports true, exactly when the id is the client's timer id; nothing else changes |
| ClientConn.EvRvClient.MakeInbox | src/ev_rv_client.cpp:481-492 | the buffer starts with the inbox name and a NUL, and the name's length is returned |
| ClientConn.EvRvClient.InitializeState | src/ev_rv_client.cpp:86-139 | every parameter, the session, the control inbox, the save buffer and the feed lists are cleared, and the state is `VersRecv`, and the version is the intended 5.4.2 of the second finding (the code as written stores 4 and leaves the minor version); null mode fills the gob with fifteen 1 bytes, sets the control inbox "_INBOX..1", `DataRecv` and no-write |
| ClientConn.EvRvClient.FillGob | src/ev_rv_client.cpp:118-120 | the gob holds fifteen 1 bytes and a NUL, and the length is 15 |
| ClientConn.EvRvClient.RvConnect | src/ev_rv_client.cpp:181-303 | a client with a socket refuses and changes nothing; otherwise the state is reset. Null mode enters `DataRecv` without writing; a failed connect leaves `ErrClose` and stores no parameter; null mode and a successful connect store the user id, the service name and the network, and only a real connect records where it dialled |
| ClientConn.EvRvClient.SendVers | src/ev_rv_client.cpp:405-412 | exactly the version record is appended to the write queue |
| ClientConn.EvRvClient.SendInfo | src/ev_rv_client.cpp:415-429 | exactly the 64-byte info record is appended to the write queue |
| ClientConn.EvRvClient.SendInitRec | src/ev_rv_client.cpp:432-462 | exactly the encoded init record of the current parameters is appended |
| ClientConn.EvRvClient.RecvInfo | src/ev_rv_client.cpp:495-562 | status and connection are those of `ClientProtocol.RecvInfo` |
| ClientConn.EvRvClient.RecvConn | src/ev_rv_client.cpp:565-612 | status and connection are those of `ClientProtocol.RecvConn` |
| ClientConn.EvRvClient.DispatchMsg | src/ev_rv_client.cpp:616-649 | status and connection are those of `Dispatch` on the frame |
| ClientConn.EvRvClient.Process | src/ev_rv_client.cpp:322-386 | the connection, offset, requested length and close flag are those of `ClientProtocol.Process`, with a stopping status moving the client to `ErrClose` |
| ClientConn.EvRvClient.HandshakeLoop | src/ev_rv_client.cpp:345-377 | either stops for want of bytes with the handshake's outcome, or hands over a state whose data loop gives it |
| ClientConn.EvRvClient.HandshakeStep | src/ev_rv_client.cpp:347-375 | one pass consumes a record and keeps the handshake's outcome, or stops, or hands over to the data loop |
| ClientConn.EvRvClient.DataRecvLoop | src/ev_rv_client.cpp:329-343 | connection, offset, requested length and status are those of `DataLoop` |
| ClientConn.EvRvClient.DataStep | src/ev_rv_client.cpp:331-342 | one pass dispatches a whole frame and keeps the data loop's outcome, or stops with exactly that outcome |
| ClientConn.BuildInfoRecord | src/ev_rv_client.cpp:417-425 | the record built word by word is the info record |
| ClientConn.CopyInto | src/ev_rv_client.cpp:484-485 | `memcpy` puts the string at the offset and leaves the rest of the buffer as it was |

## Left out

- Sockets, the poller, timers and notification callbacks. `EvTcpConnection::connect*`, `get_null_fd`, `add_sock`, timer registration, `notify->on_connect`, `push_write` and `recv_need` are I/O; their outcomes are parameters (`connectOk`, `pushOk`) or results (`need`).
- The envelope codec. `msg_in.unpack`, `RvMsgWriter` and `match_field` are the parameters `decode` and `encode`. The decoded init reply carries an optional session and an optional refusal code. `decode([])` must fail, because the source would loop on a zero-length frame if the decoder accepted it.
- The session string. `recv_info` builds it from `ipaddr`, `cid` and the clock; the model takes it from the decoder.
- The `gob`, `ipaddr`, `ipport` and `cid` fields. Only the null-mode gob fill is modelled.
- `fwd_pub`, `make_rv_msg` and `publish2`. The message-format sniffing, re-encoding and routing-fabric forwarding are out: a dispatched 'D'/'A' frame is recorded in `forwarded`, and `publish2`'s encoding is the parameter `frame`.
- `match_rv_wildcard`, pcre2 and `PatternCvt`. The parameter `matches` stands for the matcher; the pattern's format and prefix length are inputs.
- Routing-fabric calls in `recv_conn`, `rv_connect` and `release`. This covers `add_route_notify`, `add_pattern_route`, `start_subscriptions`, `TrdpSvc::create`, `on_listen_start` and `on_listen_stop`. `release()` itself is not modelled.
- `connect()`. It parses `argv` into parameters and then fills the feed lists. The model starts from the parameters, and the feed lists are fields that `rv_connect` leaves empty.
- The daemon string stored in `param_buf`. Nothing in the modelled code reads it back.
- The null-mode tail of `rv_connect` (lines 282-301). Its broadcast and listen loops run over lists that `initialize_state` has just emptied, so they do nothing.
- SubTable.SubMap.Put and PatternTable.PatternMap.Put: do not model the `RV_SUB_NOT_FOUND` reply the source gives when `upsert2` returns NULL (include/sassrv/ev_rv.h:117-118, 249-250), because that is an allocation failure; the model's put always succeeds.
- ClientRules.Atoi: does not model overflow of C's `atoi` on more than ten digits, which is undefined behaviour.
- ClientConn.EvRvClient.MakeInbox: requires the inbox to fit its buffer; the source writes into 64 bytes without a check.
- ClientProtocol.ControlListen: with an empty control inbox the source writes `inbox[-1]`; the model sends an empty subject.
- ClientConn.EvRvClient.Subscribe: the encoder buffer size computed from the subject length (`buflen`) is not modelled.
- `process` stops at the first non-zero status and closes. It does not model `clear_write_buffers` when `push_write` fails.
- Frames and records are values. `do_psub`, `fwd_pat` and `send_info` write char arrays; they are modelled with sequences, except the `make_inbox` and gob buffers, which stay arrays.
- Tracing and verbosity flags.

## Findings

| source | as written | input that shows it | evidently intended | confidence | as-written member | corrected member |
|---|---|---|---|---|---|---|
| include/sassrv/ev_rv.h:359-368 | `set_prefix` decrements `j` before testing it, and `j` is `uint16_t`, so a name that is only "." has `j` 0 when the loop starts and reads `pref[65535]` | service name "." | test `j == 0` before the first copy | high, not executed | MsgIn.SetPrefixFirstReadAsWritten, MsgIn.SetPrefixReadsOutOfBounds | MsgIn.MsgIn.SetPrefix |
| src/ev_rv_client.cpp:95-97 | `initialize_state` assigns `vmaj` twice (5, then 4) and never assigns `vmin` | any reset: the stored version is 4.?.2 | store 5.4.2, the version `send_init_rec` announces | medium, not executed | ClientRules.VersionAfterResetAsWritten, ClientRules.VersionResetDiffers | ClientRules.InitialVersion, ClientConn.EvRvClient.InitializeState |
| src/ev_rv_client.cpp:1083-1091 | `get_nsub` takes `replen` by value, so `on_sub` keeps `replen = 0` and `subscribe` sends no reply | subject "A" with reply "R", no prefix | pass the stripped reply to `subscribe` | medium, not executed | ClientRules.OnSubArgsAsWritten, ClientRules.OnSubDropsReply | ClientRules.GetNsub, ClientConn.EvRvClient.OnSub |
