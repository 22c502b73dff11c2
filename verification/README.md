# homeTier in Dafny

homeTier joins devices into virtual networks on top of EasyTier. This project models
the parts of it where several actors, partial failures or text formats meet, and
proves what they guarantee over every input and every interleaving:

- the **config store** (`ConfigNode`, `ConfigSafety`, `ConfigRemote`, `ConfigPairing`, `ConfigService`):
  connection tasks submit versioned files into a map plus a channel, one consumer
  writes them to disk under a version check, remote nodes read them back;
- the **daemon IPC** (`Framing`, `IpcLink`, `IpcAlignment`, `IpcDelivery`, `IpcLengths`, `IpcClient`): length-prefixed requests over
  a reused connection with partial reads and writes, timeouts, errors and reconnects;
- the **VPN route runner** (`VpnRunner`, `MobileVpn`): a single-flight rebuild loop
  interleaved with mesh events at each await;
- the **application configuration** (`EnvText`, `EnvRoundTrip`, `EnvLayout`, `BuiltInTemplate`,
  `AppConfig`): `.env` text parsed, rendered over a template and merged with defaults;
- the **app proxy** (`CookieJar`, `Csp`, `CspFixedPoint`, `CspPasses`): cookies per host
  and the relaxed Content-Security-Policy;
- the **log ring** (`LogRing`, `LogFilters`, `LogBackend`), the **file server's request
  reader** (`HttpReader`), **CIDR arithmetic** (`NetworkCidr`), the **proxy CIDR list**
  (`ProxyCidrs`) and the **tab store** (`AppTabs`). `Base` and `Strings` hold what they share.

Protocols are step machines: a state, an event type, a total `Step`, and `Run` over any
sequence of events, where an event that is not enabled changes nothing. "Every run"
therefore means every interleaving. Code that updates fields in place is a class whose
methods are proved to take exactly those steps; loops stay loops.

`dafny verify dfyconfig.toml` checks everything.

## Where the code and the expectation differ

Each point has a lemma at a failing input and the exact condition.

- `queue.rs` documents that of two submissions of a name the newest version is kept.
  `submit` keeps the last inserted one, so a file with the largest version can vanish
  (`OverwrittenCanBeLost`, `ReadBackIffLast`).
- `get_file` answers with the version in memory and the content on disk. While a store is
  between its two writes, after a crash there, or when a store runs between the lookup
  and the read, an old version comes with a newer content (`OldVersionWithNewContent`,
  `RestartKeepsOldVersion`; exact: `ReadIsPairedIff`, `ReadIsPairedIffNotOvertaken`).
- The version check of `store` is documented to prevent a rollback (`store.rs:30`). After
  a restart in the middle of a store it does not: an older file can replace the newer
  content on disk (`RestartLetsVersionGoDown`; exact: `ContentCanGoDownIff`).
- A stored version 0 with timestamp 0, or version 0 with empty content, reads remotely
  as "not stored" (`ZeroReadsAsAbsent`, `RemoteReadsExact`).
- Message lengths are cast to `u32`. A message of 2^32 bytes or more whose wrapped length
  is within the limit is cut, and the rest stays on the kept stream
  (`UnsafeLengthsGetOutOfStep`, `AlignedIffLengthsAreSafe`).
- A value that the parser unquoted and that starts or ends with white space, or is
  itself quoted, does not survive a save (`QuotedSpacesAreLost`, `SaveReloadExactIff`).
- Without a template file, a save keeps only the keys of the built-in list and adds the
  defaults of the others (`UnlistedKeyIsLost`, `BuildTemplateMeans`, `BuildTemplateKeepsIff`).
- `relax_csp` appends only the last missing source, so two sources can need a second pass
  (`TwoSourcesExample`, `FixedPointIff`, `PermitsAfterPasses`). Its one caller passes a
  single source (`src-tauri/src/proxy/plugins/http_forward.rs:801`), for which one pass is
  always enough (`OneSourceIsFixedPoint`).
- A log record numbered first but pushed after a poll that saw a larger number is never
  delivered (`SplitWritesCanBeMissed`, `PollingIsExact`).
- `clear_filtered` with only a sequence number or a time span set clears everything
  (`SpanAloneClearsAll`, `ClearTakesWhatQueryShowsIff`). No caller sets them today
  (`src-tauri/src/commands/log.rs:157-163`, `src-tauri/src/server/routes.rs:717-719`).
- `build_cookie_header` cites section 5.1.4 of RFC 6265. On the request paths its callers
  build, which start with a slash, it follows that rule except for a cookie path with a
  trailing slash: `/a/` also matches the request `/a` (`TrailingSlashExample`,
  `AgreesWithRfcIff`).
- `dedupe_proxy_cidrs` can switch the legacy fallback list on or off when the list held
  only blank entries (`BlankEntryHidesFallback`, `EffectiveKeptIff`).
- `setActive` accepts a key that is not open (`SetActiveOnUnknownKey`, `SetActiveIff`).

## Model

| member | source | states |
|---|---|---|
| `ConfigSafety.NoLostUpdate` | src-tauri/src/config_store/queue.rs:30-55 | in every quiet run whose lock and content writes succeeded, nothing is pending, each submitted name's stored version is at least that of the last file inserted, and memory and disk hold exactly that file when its version is above all others of its name |
| `ConfigSafety.SafeRun` | src-tauri/src/config_store/queue.rs:30-55 | token coverage, disk ordering, insertion order, replay and origin of what is stored hold after any sequence of events, crashes and I/O errors included |
| `ConfigSafety.CoveredStep` | src-tauri/src/config_store/queue.rs:33-55 | each step keeps a token for every pending name: in the channel, at a submitter between insert and send, or held by the consumer |
| `ConfigSafety.QuietHasNoPending` | src-tauri/src/config_store/queue.rs:33-59 | with no token in flight the pending map is empty |
| `ConfigSafety.LastIsHanded` | src-tauri/src/config_store/queue.rs:33-55 | once quiet, the last file inserted under a name has been handed to `store` |
| `ConfigSafety.HandedInOrder` | src-tauri/src/config_store/queue.rs:33-55 | the files handed to `store` for a name are a subsequence of the files inserted for it |
| `ConfigSafety.ReplayCovers` | src-tauri/src/config_store/store.rs:126-138 | storing only larger versions never ends below the version of any file offered |
| `ConfigSafety.AdvancesRun` | src-tauri/src/config_store/store.rs:127-138 | between any two points of a run without restart neither the recorded version of a name nor that of its written content goes down, and its content changes only together with a strictly larger version |
| `ConfigSafety.IndexNeverAhead` | src-tauri/src/config_store/store.rs:126-152 | after any run, with a crash possible between any two writes, versions.json records no version above the content on disk |
| `ConfigNode.LoadListing` | src-tauri/src/config_store/store.rs:70-77 | loading an index written in any map order gives back the version map |
| `ConfigRemote.ReadBackIffLast` | src-tauri/src/config_store/queue.rs:49-55 | a pushed file above every other version of its name is read back in every interleaving if and only if it is the last one pushed under that name |
| `ConfigRemote.LastNewestReadsBack` | src-tauri/src/config_store/client.rs:48-106 | after the queue drains, query_version returns version, timestamp and checksum, and request_file returns version, content and checksum, of the last and newest file |
| `ConfigRemote.OverwrittenCanBeLost` | src-tauri/src/config_store/queue.rs:49-55 | for every list of files in which the newest is not the last, a complete run exists that does not store it |
| `ConfigRemote.NeverPushedReadsNone` | src-tauri/src/config_store/store.rs:80-110 | a name never pushed reads as None by both remote reads |
| `ConfigRemote.RemoteReadsExact` | src-tauri/src/config_store/server.rs:61-97 | at every point of every run both reads answer; they answer None exactly for names not stored or stored with zero version and zero timestamp (respectively empty content), and otherwise give the recorded version, timestamp and checksum, and the content on disk with the recorded version and checksum |
| `ConfigRemote.ZeroReadsAsAbsent` | src-tauri/src/config_store/client.rs:62-63 | a run that stores a file with version, timestamp and content zero or empty, which both reads report as absent |
| `ConfigRemote.RepliesAreTold` | src-tauri/src/config_store/client.rs:48-133 | each call succeeds exactly on a reply of its own kind, a push only on an acknowledged one |
| `ConfigRemote.OtherMessagesAreRefused` | src-tauri/src/config_store/server.rs:120-124 | a message that is not a request is refused and submits nothing |
| `ConfigRemote.PushSubmits` | src-tauri/src/config_store/server.rs:98-119 | a push is acknowledged, and the node after it differs only by the submission of the same file: other pending names, consumer and store are unchanged |
| `ConfigRemote.Drain` | src-tauri/src/config_store/queue.rs:33-44 | from every reachable state with no submitter mid-way, wherever the consumer stands, the consumer alone can bring the node to rest, and every file that was pending has then been handed to `store` |
| `ConfigPairing.ResubmitRepairs` | src-tauri/src/config_store/store.rs:126-152 | after a crash between the content write and the index write of a file, in every later run, with whatever other submissions, that comes to rest without a fault and in which that file is the last and largest of its name, content, memory and index hold it and the index equals memory for every name |
| `ConfigPairing.ResubmitCanComplete` | src-tauri/src/config_store/store.rs:126-152 | from every state after a crash such a run exists for every file |
| `ConfigPairing.RestartKeepsOldVersion` | src-tauri/src/config_store/store.rs:70-77 | after that crash the new content is answered with the strictly older version of the index, or not at all if the index lacks the name |
| `ConfigPairing.ContentCanGoDownIff` | src-tauri/src/config_store/store.rs:127-138 | from every reachable state, crashes included, some run without a further crash lowers the version of a name's content on disk if and only if another version fits between the one recorded (or written) and the one on disk |
| `ConfigPairing.RestartLetsVersionGoDown` | src-tauri/src/config_store/store.rs:70-77 | for every two files of a name, a run that leaves the larger version on disk and, after a restart, the smaller one |
| `ConfigPairing.PairedRun` | src-tauri/src/config_store/store.rs:126-152 | in every run, crashes included, equal versions in memory or index and on disk mean the same file |
| `ConfigPairing.ReadIsPairedIff` | src-tauri/src/config_store/store.rs:95-110 | a read whose lookup and content read are separate steps of any run, after any crashes, never gets a content older than the version, and gets that version's content if and only if the content file still has that version |
| `ConfigPairing.ReadIsPairedIffNotOvertaken` | src-tauri/src/config_store/store.rs:95-110 | without a crash, if and only if no larger version of the name is written by then; read at one moment, if and only if the consumer is not between writing the content of that name and recording it |
| `ConfigPairing.OldVersionWithNewContent` | src-tauri/src/config_store/store.rs:132-138 | for every two files of a name with growing versions, a run in which request_file answers the old version and checksum with the new content |
| `ConfigService.LoadVersions` | src-tauri/src/config_store/store.rs:70-77 | the map of the index, each entry under its own name; empty when the index is missing or unreadable |
| `ConfigService.ConfigStoreService.constructor` | src-tauri/src/config_store/store.rs:59-68 | a process starting on the disk any earlier process left: an empty queue, the versions of the index, none above the content on disk |
| `ConfigService.ConfigStoreService.InsertPending` | src-tauri/src/config_store/queue.rs:50-53 | takes the insert step, replacing a pending file of the same name |
| `ConfigService.ConfigStoreService.SendToken` | src-tauri/src/config_store/queue.rs:54 | takes the send step of a submitter that has inserted |
| `ConfigService.ConfigStoreService.Submit` | src-tauri/src/config_store/queue.rs:49-55 | insert, then send |
| `ConfigService.ConfigStoreService.PendingLen` | src-tauri/src/config_store/queue.rs:57-59 | the number of pending names, zero in a quiet node |
| `ConfigService.ConfigStoreService.GetMeta` | src-tauri/src/config_store/store.rs:80-82 | the recorded metadata, filed under its own name, if and only if there is one |
| `ConfigService.ConfigStoreService.ListMeta` | src-tauri/src/config_store/store.rs:85-92 | a listing from which the whole map can be loaded again |
| `ConfigService.ConfigStoreService.PersistVersions` | src-tauri/src/config_store/store.rs:147-152 | on success the index loads to the map in memory; on failure the old index stays or is unreadable |
| `ConfigService.ConfigStoreService.StoreFile` | src-tauri/src/config_store/store.rs:116-145 | conflict exactly when an equal or newer version is held; refusal or failure before the content write changes nothing; success leaves content, memory and index holding the file and no other name touched |
| `ConfigService.ConfigStoreService.ReceiveToken` | src-tauri/src/config_store/queue.rs:33 | takes the receive step: the first token leaves the channel |
| `ConfigService.ConfigStoreService.TakePending` | src-tauri/src/config_store/queue.rs:34-35 | takes the removal step: what is pending under the name, if anything, is now being stored |
| `ConfigService.ConfigStoreService.ConsumeOne` | src-tauri/src/config_store/queue.rs:33-44 | takes one token, removes what is pending under its name and stores exactly that: with a larger version it is in memory, content and index unless the lock or a write fails, and otherwise nothing changes |
| `ConfigService.ConfigStoreService.Consume` | src-tauri/src/config_store/queue.rs:32-45 | when the loop has emptied the channel and no submitter is mid-way, nothing is pending and, without faults, every name has at least the version last submitted and exactly the last file where it is the newest; if no index write fails, a new process loads the versions in memory |
| `Framing.FramingRoundTrip` | src-tauri/src/daemon/mod.rs:287-305 | any sequence of messages of at most 10 MiB, framed and read by the server loop, comes back as the same sequence |
| `Framing.TruncationGivesPrefix` | src-tauri/src/daemon/mod.rs:287-305 | any stream cut anywhere gives a prefix of the messages of the whole stream |
| `Framing.FrameReadsBackIff` | src-tauri/src/daemon/mod.rs:295-304 | one message is read back with nothing left over if and only if it is within the limit |
| `Framing.BytesLeftIff` | src-tauri/src/daemon/mod.rs:579-582 | a message is cut and leaves bytes behind if and only if its length is at least 2^32 and wraps to one within the limit |
| `Framing.Le32RoundTrip` | src-tauri/src/daemon/client.rs:62-69 | the little-endian length decodes to itself |
| `Framing.FrameIsLittleEndian` | src-tauri/src/daemon/client.rs:62-69 | a frame is four length bytes, least significant first, and the message |
| `Framing.ReadLoop` | src-tauri/src/daemon/mod.rs:287-305 | the loop reads exactly the messages of the stream's specification |
| `IpcAlignment.AlignedRun` | src-tauri/src/daemon/client.rs:44-112 | in every run of messages that fit (below 2^32 bytes, or refused by their wrapped length), whenever no send is running and a stream is kept, both directions are empty and the server is between frames; every response returned on any connection answers that very request |
| `IpcAlignment.ValidStep` | src-tauri/src/daemon/mod.rs:279-323 | each partial read, write, failure, reply or reconnect keeps the account of where every byte of the exchange is |
| `IpcDelivery.ExchangeCompletes` | src-tauri/src/daemon/client.rs:60-112 | from a kept stream at rest, under every mixture of partial writes, reads, pulls and pushes while the connection lives: when all of a request within the limit has arrived the server has exactly it, and when all of the response has arrived send has returned exactly that and kept the stream, clean |
| `IpcDelivery.RequestArrives` | src-tauri/src/daemon/mod.rs:287-305 | however a request is cut, nothing goes back, and all of it has arrived if and only if the server is handling exactly that request |
| `IpcDelivery.AnyPullsDeliver` | src-tauri/src/daemon/mod.rs:287-305 | a request that is written is handled after as many reads of any positive size as its frame has bytes |
| `IpcDelivery.ArrivedIffHandling` | src-tauri/src/daemon/mod.rs:287-305 | until then some byte can move |
| `IpcDelivery.ResponseArrives` | src-tauri/src/daemon/client.rs:75-104 | however a response is cut, send has returned it, or still waits for bytes that are on their way |
| `IpcDelivery.ResponseAdvances` | src-tauri/src/daemon/client.rs:75-104 | every push or read that has something to move brings the response on |
| `IpcDelivery.SomethingMoves` | src-tauri/src/daemon/client.rs:75-104 | as long as send waits some byte can move |
| `IpcClient.Client.constructor` | src-tauri/src/daemon/client.rs:17-19 | no stream is held at first |
| `IpcClient.Client.Send` | src-tauri/src/daemon/client.rs:44-112 | for every request, codec and schedule: a failed connect, write, read, timeout or oversized length leaves no stream; a request that does not serialise and a response that does not parse are errors that keep it; on a valid link, with messages that fit, a complete response is the server's answer to this request and nothing is left on the stream, whether or not it parses |
| `IpcClient.Client.Transact` | src-tauri/src/daemon/client.rs:66-112 | the stream is given up exactly when no complete response was read |
| `IpcClient.Client.WriteAll` | src-tauri/src/daemon/client.rs:66-73 | the whole length and request are sent, or the write failed part-way |
| `IpcClient.Client.ReadLength` | src-tauri/src/daemon/client.rs:75-94 | four bytes are read, and the link drops the stream, has the empty response, or expects that many bytes |
| `IpcClient.Client.ReadExact` | src-tauri/src/daemon/client.rs:96-111 | exactly the announced bytes are read and are the response, or the read failed part-way |
| `IpcClient.DecodedRequestIsTheOneSent` | src-tauri/src/daemon/mod.rs:307-321 | with any codec that decodes what it encoded, the request decoded for a returned response is the one passed to send |
| `IpcLengths.AlignedIffLengthsAreSafe` | src-tauri/src/daemon/client.rs:62-94 | for any sets of requests and responses, every run over them stays in step if and only if all of them fit, or all requests are refused, or all responses are |
| `IpcLengths.UnsafeLengthsGetOutOfStep` | src-tauri/src/daemon/client.rs:62-94 | otherwise an exchange of two of these messages returns a result and keeps a stream that is out of step |
| `IpcLengths.ExchangeInStepIff` | src-tauri/src/daemon/mod.rs:579-582 | for every request and response that pass the length checks, a complete exchange keeps the stream, in step if and only if both are below 2^32 bytes |
| `VpnRunner.ConvergesInEveryRun` | src/services/mobileVpn.ts:361-450 | VPN starts never overlap; after the replay, whenever the runner is idle: if the last start succeeded a route is applied if and only if it is the own subnet or among the routes announced last and not local, and if it failed nothing is |
| `VpnRunner.MeshIsAnnounced` | src/services/mobileVpn.ts:434-451 | in every run the recorded routes are exactly those of the last event while the listener is registered, or of the replay, and the phase is that of the connection's own calls |
| `VpnRunner.CallStartsCycle` | src/services/mobileVpn.ts:387-405 | a call on an idle runner starts a cycle towards exactly those routes, or they are applied already |
| `VpnRunner.BusyCallQueues` | src/services/mobileVpn.ts:389-392 | a changed announcement during a cycle is queued |
| `VpnRunner.StartAppliesItsRoutes` | src/services/mobileVpn.ts:417-423 | a start that completes leaves exactly the routes it was given, or null |
| `VpnRunner.AppliedIffLastStartOk` | src/services/mobileVpn.ts:417-424 | at every point of every run routes are recorded as applied if and only if the last start that completed succeeded |
| `VpnRunner.AtMostOneMoreCycle` | src/services/mobileVpn.ts:387-426 | after the last call of rebuildVpn at most one further stop/start cycle begins |
| `VpnRunner.SettlesAfterTwoCycles` | src/services/mobileVpn.ts:387-426 | once calls stop, two cycles' worth of completions leave the runner idle and converged, whatever the outcomes |
| `VpnRunner.GoodStep` | src/services/mobileVpn.ts:387-450 | every event keeps one activation at most, whose target is current unless another turn is queued |
| `VpnRunner.ComparisonsDecideEquality` | src/services/mobileVpn.ts:383-384 | comparing sizes and one inclusion decides set equality, and its negation, for all sets |
| `VpnRunner.DesiredRoutes` | src/services/mobileVpn.ts:371-382 | own subnet and mesh routes without any local subnet |
| `MobileVpn.RouteRunner.constructor` | src/services/mobileVpn.ts:361-367 | the initial variables |
| `MobileVpn.RouteRunner.RunTurn` | src/services/mobileVpn.ts:394-405 | one turn of the loop up to its first await, or the early return |
| `MobileVpn.RouteRunner.RebuildVpn` | src/services/mobileVpn.ts:387-393 | ignored before the first start, queued while busy, otherwise one turn |
| `MobileVpn.RouteRunner.OnMeshRoutes` | src/services/mobileVpn.ts:434-451 | a changed set is recorded and triggers a rebuild; the invariant is kept |
| `MobileVpn.RouteRunner.OnFirstStarted` | src/services/mobileVpn.ts:480-499 | the minimal VPN is up with the own subnet applied, or the connection is closed |
| `MobileVpn.RouteRunner.ReplayRoutes` | src/services/mobileVpn.ts:517-535 | the replay aligns with the current routes and rebuilds, also when fetching them failed |
| `MobileVpn.RouteRunner.OnStopDone` | src/services/mobileVpn.ts:405-406 | a stopped cycle goes on to start with the routes it was computed for |
| `MobileVpn.RouteRunner.OnStartDone` | src/services/mobileVpn.ts:406-425 | a failed start clears the applied routes, a successful one records its target and runs a queued turn; idle after the replay means converged |
| `EnvRoundTrip.SaveReloadExactIff` | src-tauri/src/config/mod.rs:245-301 | for every template, map and iteration order, reading back the rendered text gives the merged map if and only if all keys and values of the map are clean |
| `EnvRoundTrip.SaveReload` | src-tauri/src/config/mod.rs:272-301 | with clean keys and one-line values, reading back gives the template's values overridden by the normalised ones, duplicate template keys included |
| `EnvRoundTrip.RenderKeyIsParseKey` | src-tauri/src/config/mod.rs:275-289 | renderer and parser find the same key in every line although one searches the untrimmed text |
| `EnvRoundTrip.ParsedKeyIsClean` | src-tauri/src/config/mod.rs:248-266 | whatever the parser accepts as a key is clean |
| `EnvRoundTrip.ParseEntry` | src-tauri/src/config/mod.rs:252-266 | a written entry under a clean key is read as that key and the trimmed, unquoted value |
| `EnvRoundTrip.NormalKeepsIff` | src-tauri/src/config/mod.rs:257-265 | a value is read back unchanged if and only if it is trimmed and not wrapped in matching quotes |
| `EnvRoundTrip.QuotedSpacesAreLost` | src-tauri/src/config/mod.rs:257-265 | a quoted value with a leading space is loaded with the space and loses it on the next save |
| `EnvLayout.OtherLinesStay` | src-tauri/src/config/mod.rs:275-294 | every template line that sets no key, comments and blanks included, and every line whose key is not set, is saved as it is and where it is |
| `EnvLayout.SavedLine` | src-tauri/src/config/mod.rs:275-294 | the line of a set key becomes key, equals sign and value |
| `EnvLayout.NewLinesFollow` | src-tauri/src/config/mod.rs:295-299 | behind the template's lines comes exactly one line for each key that it does not set |
| `EnvLayout.LineSetsIff` | src-tauri/src/config/mod.rs:248-266 | a line sets a key if and only if the text before its first equals sign, trimmed, is that key, not empty and not the start of a comment; the value is the rest, trimmed and unquoted |
| `EnvLayout.LineSetsNothingIff` | src-tauri/src/config/mod.rs:248-256 | it sets nothing if and only if there is no such split |
| `EnvLayout.QuotesComeOff` | src-tauri/src/config/mod.rs:258-265 | double and single quotes around a text come off, no other character does |
| `EnvLayout.UnmatchedQuotesStay` | src-tauri/src/config/mod.rs:258-265 | different characters at both ends stay |
| `EnvLayout.LastLineWins` | src-tauri/src/config/mod.rs:266 | a key has the value of the last line that sets it |
| `EnvLayout.ReadIffSet` | src-tauri/src/config/mod.rs:247-268 | a key is read if and only if a line sets it |
| `EnvLayout.LinesBreak` | src-tauri/src/config/mod.rs:247 | lines end at a newline, with or without a carriage return before it |
| `EnvText.LinesOfUnlines` | src-tauri/src/config/mod.rs:275-294 | splitting the written text gives the lines back, up to a carriage return at their end |
| `EnvText.ParseOne` | src-tauri/src/config/mod.rs:248-266 | the loop body of the parser on one line |
| `EnvText.ParseEnv` | src-tauri/src/config/mod.rs:245-269 | the loop computes the map of the text, later lines winning |
| `EnvText.RenderOne` | src-tauri/src/config/mod.rs:276-292 | the text written for one template line and the key it mentions |
| `EnvText.RenderNext` | src-tauri/src/config/mod.rs:275-294 | one turn of the first loop: one more line written and its key seen |
| `EnvText.RenderKnown` | src-tauri/src/config/mod.rs:273-294 | the first loop writes every template line, known keys replaced, and collects the keys seen |
| `EnvText.AppendNew` | src-tauri/src/config/mod.rs:295-299 | the second loop appends each key not seen, in some order that covers the map |
| `EnvText.RenderFromTemplate` | src-tauri/src/config/mod.rs:272-301 | both loops together render the map over the template |
| `BuiltInTemplate.BuildTemplateKeepsIff` | src-tauri/src/config/mod.rs:304-335 | without a template, reading back what is saved gives the same map if and only if it is clean and has exactly the keys of the built-in list |
| `BuiltInTemplate.BuildTemplateMeans` | src-tauri/src/config/mod.rs:304-335 | with one-line values exactly the nine listed keys are read back, those given with their normalised values and the others with their defaults |
| `BuiltInTemplate.UnlistedKeyIsLost` | src-tauri/src/config/mod.rs:304-335 | a configuration of one key that is not listed is read back as the nine defaults |
| `BuiltInTemplate.TextKeepsIff` | src-tauri/src/config/mod.rs:330-335 | the same for any list of clean keys with one-line defaults |
| `AppConfig.SavedTextMeansAllIff` | src-tauri/src/config/mod.rs:154-182 | with or without a template, the saved text means what `all` returns if and only if the runtime values are clean and, without a template, have exactly the built-in keys |
| `AppConfig.GetSurvivesReloadIff` | src-tauri/src/config/mod.rs:105-118 | saving and loading again changes the answer of no `get` if and only if the runtime values are clean and, without a template, have exactly the built-in keys |
| `AppConfig.Config.constructor` | src-tauri/src/config/mod.rs:50-63 | no runtime values, defaults parsed from the template, none without a template |
| `AppConfig.Config.Load` | src-tauri/src/config/mod.rs:66-80 | the file's map replaces the runtime values; a missing file changes nothing |
| `AppConfig.Config.Get` | src-tauri/src/config/mod.rs:105-118 | the lookup in the merged map that `all` returns |
| `AppConfig.Config.All` | src-tauri/src/config/mod.rs:172-182 | template defaults overridden by every runtime value |
| `AppConfig.Config.Save` | src-tauri/src/config/mod.rs:154-169 | writes over the template or the built-in list; the file then means the merged map if and only if the runtime values survive; a failed write leaves it alone |
| `AppConfig.Config.Set` | src-tauri/src/config/mod.rs:146-151 | the value is in memory whether or not the file was written, and the file means the merged map if and only if the runtime values survive |
| `CookieJar.HeaderListsCookiesInForce` | src-tauri/src/proxy/hometier_protocol.rs:483-532 | after any history of calls at non-decreasing times the header is, in order of last insertion, name, equals sign and value of exactly those cookies in force whose domain is for the host and whose path is for the request, no identity twice; None if there are none |
| `CookieJar.DomainMatchIff` | src-tauri/src/proxy/hometier_protocol.rs:503-512 | for all strings, a cookie with a domain matches if and only if the host is that domain without its leading dots, or some text, a dot and it; one without a domain always matches |
| `CookieJar.MatchesIffApplies` | src-tauri/src/proxy/hometier_protocol.rs:500-522 | a cookie is chosen exactly by that rule and the path rule of section 5.1.4 of RFC 6265 on the stripped path |
| `CookieJar.SubdomainExample` | src-tauri/src/proxy/hometier_protocol.rs:503-512 | a cookie for `.b` goes to the host `a.b` |
| `CookieJar.JarHoldsSurvivors` | src-tauri/src/proxy/hometier_protocol.rs:448-480 | the unexpired part of the jar is the list of Set-Cookie headers not replaced by the same identity and not deleted by an expired header of that name and path, whatever its domain |
| `CookieJar.JarIsDistinct` | src-tauri/src/proxy/hometier_protocol.rs:470-480 | after any history at most one cookie per name, path and domain |
| `CookieJar.PathMatchAgainstRfc` | src-tauri/src/proxy/hometier_protocol.rs:513-522 | the code matches whenever section 5.1.4 of RFC 6265 does, and is that rule on the cookie path without trailing slashes |
| `CookieJar.AgreesWithRfcIff` | src-tauri/src/proxy/hometier_protocol.rs:513-522 | on all request paths that start with a slash both rules agree if and only if the cookie path is not a rooted path longer than `/` with a trailing slash |
| `CookieJar.TrailingSlashExample` | src-tauri/src/proxy/hometier_protocol.rs:513-522 | cookie path `/a/` matches the request `/a`, which the RFC rule refuses |
| `CookieJar.AgreesOnAllStringsIff` | src-tauri/src/proxy/hometier_protocol.rs:513-522 | on all strings they agree if and only if the cookie path is non-empty and has no trailing slash |
| `CookieJar.PerHostCookieJar.constructor` | src-tauri/src/proxy/hometier_protocol.rs:443-445 | an empty jar with an empty history |
| `CookieJar.PerHostCookieJar.RetainNotKilled` | src-tauri/src/proxy/hometier_protocol.rs:470-480 | removes exactly the cookies the header replaces or deletes, order kept |
| `CookieJar.PerHostCookieJar.AddSetCookie` | src-tauri/src/proxy/hometier_protocol.rs:448-468 | the jar is that of the extended history; a header without a name changes nothing; the result is what has to be persisted |
| `CookieJar.PerHostCookieJar.RetainUnexpired` | src-tauri/src/proxy/hometier_protocol.rs:489-492 | removes exactly the expired cookies |
| `CookieJar.PerHostCookieJar.CollectMatching` | src-tauri/src/proxy/hometier_protocol.rs:498-525 | name and value of the cookies whose domain and path match, in jar order |
| `CookieJar.PerHostCookieJar.BuildCookieHeader` | src-tauri/src/proxy/hometier_protocol.rs:483-532 | the header of the cookies in force, None when none matches |
| `Csp.RelaxDirective` | src-tauri/src/proxy/hometier_protocol.rs:147-169 | the new text of a directive and whether it counts as modified |
| `Csp.RelaxCsp` | src-tauri/src/proxy/hometier_protocol.rs:138-187 | the nested loops compute the policy that the lemmas speak of |
| `CspFixedPoint.OneSourceIsFixedPoint` | src-tauri/src/proxy/hometier_protocol.rs:138-187 | with at most one added source, a policy once relaxed needs no further relaxation |
| `CspFixedPoint.FixedPointIff` | src-tauri/src/proxy/hometier_protocol.rs:160-169 | with any number of sources, one pass is enough if and only if no connect-src or default-src of the original policy, followed by the last source it lacks, lacks another one |
| `CspFixedPoint.TwoSourcesNeedTwoPasses` | src-tauri/src/proxy/hometier_protocol.rs:160-169 | every policy of one such directive with two sources, the second missing and the first still missing when it is appended, is changed by two passes |
| `CspFixedPoint.TwoSourcesExample` | src-tauri/src/proxy/hometier_protocol.rs:160-169 | a bare connect-src with the sources `x` and `y` is one |
| `CspFixedPoint.OtherDirectivesSurvive` | src-tauri/src/proxy/hometier_protocol.rs:138-187 | directives of any other kind come out verbatim, all of them, in order |
| `CspPasses.PermitsAfterPasses` | src-tauri/src/proxy/hometier_protocol.rs:138-187 | as many passes as there are sources (at least one) give a policy without frame-ancestors whose script-src directives have the hash and whose connect-src and default-src list every source |
| `CspPasses.NoneIffPermits` | src-tauri/src/proxy/hometier_protocol.rs:171-177 | None is returned exactly for a policy that already permits all that is asked for |
| `CspPasses.PassOnlyAppends` | src-tauri/src/proxy/hometier_protocol.rs:147-186 | a pass drops frame-ancestors, appends the hash to a script-src that lacks it and the last missing source to a connect-src or default-src, keeps every directive in its place, adds a script-src exactly when there was none, and joins with a semicolon and a space |
| `CspPasses.AddedIsLastMissing` | src-tauri/src/proxy/hometier_protocol.rs:160-169 | the inner loop leaves the last missing source appended, and fewer sources missing |
| `LogRing.PollingIsExact` | src-tauri/src/log/backend.rs:319-328 | for every filter of the reader and every interleaving with numbering and pushing as separate steps, polls repeat nothing, and a written record is delivered if and only if the filter selects it, it was pushed, no larger number had been polled by then, and it was not evicted or cleared before a poll |
| `LogRing.PollingIsComplete` | src-tauri/src/daemon/mod.rs:511-518 | with atomic writes delivered numbers strictly increase and every record the filter selects is delivered unless evicted or cleared before a poll |
| `LogRing.BoundedRun` | src-tauri/src/log/backend.rs:319-328 | in every interleaving numbers are pairwise distinct and below the counter and the buffer is within its cap |
| `LogRing.WriteIsTicketPush` | src-tauri/src/log/backend.rs:319-328 | an atomic write is one of the interleavings of its two steps |
| `LogRing.BufferIsNewest` | src-tauri/src/log/backend.rs:319-328 | writing and polling only, the ring holds exactly the newest records written, as many as fit |
| `LogRing.EvictsOldest` | src-tauri/src/log/backend.rs:324-326 | a full ring loses its oldest entry |
| `LogRing.SplitWritesCanBeMissed` | src-tauri/src/log/backend.rs:321-323 | a run in which a record is in the buffer and is never delivered |
| `LogFilters.ClearTakesWhatQueryShowsIff` | src-tauri/src/log/backend.rs:278-291 | query and clear partition the buffer if and only if one of the five tested fields is set or everything lies in the filter's span |
| `LogFilters.QueryShowsExactly` | src-tauri/src/log/backend.rs:155-201 | for every filter a query shows exactly the records that satisfy each of its fields, in order and up to the limit; a clear leaves exactly the others, or none without a field to go by |
| `LogFilters.MatchesIffAsked` | src-tauri/src/log/backend.rs:155-201 | what each field asks of a record |
| `LogFilters.SpanAloneClearsAll` | src-tauri/src/log/backend.rs:278-291 | with only a sequence number set, a query shows one of two records and a clear removes both |
| `LogFilters.QueryIsPoll` | src-tauri/src/log/backend.rs:248-262 | a query with any filter from the last number seen on is a poll for that filter's records, when its limit is no smaller than the buffer |
| `LogFilters.ClearedIsRetain` | src-tauri/src/log/backend.rs:278-291 | every filtered clear is a retain step of the ring |
| `LogBackend.MemoryBackend.constructor` | src-tauri/src/log/backend.rs:213-219 | empty, numbering from 1 |
| `LogBackend.MemoryBackend.PushEntry` | src-tauri/src/log/backend.rs:322-327 | the newest entries up to the cap, the new one last |
| `LogBackend.MemoryBackend.WriteRecord` | src-tauri/src/log/backend.rs:319-328 | takes the write step and keeps the accounting of all records |
| `LogBackend.MemoryBackend.RetainUnmatched` | src-tauri/src/log/backend.rs:288 | removes exactly the matching records |
| `LogBackend.MemoryBackend.ClearFiltered` | src-tauri/src/log/backend.rs:278-291 | clears everything or the matching records, as a step that keeps the accounting |
| `LogBackend.MemoryBackend.Query` | src-tauri/src/log/backend.rs:248-262 | the matching records in order, cut at the limit |
| `LogBackend.MemoryBackend.GetLogs` | src-tauri/src/daemon/mod.rs:511-518 | for every level, space and number, exactly the stored records they select, with increasing numbers |
| `LogBackend.LogReader.constructor` | src/components/Log/LogViewer.tsx:156 | nothing seen yet |
| `LogBackend.LogReader.Fetch` | src/components/Log/LogViewer.tsx:203-217 | with any fixed filter, takes a poll step: what it gets is added to what was delivered, and the reader keeps the largest number seen |
| `LogBackend.MaxSeq` | src/components/Log/LogViewer.tsx:214-216 | the largest of the last number seen and those received |
| `HttpReader.ChunkingIndependentIff` | src-tauri/src/file/server.rs:118-178 | for every byte stream, all splits into non-empty reads give the result of the unsplit stream if and only if there is no blank line, or it ends within the limit and no more than Content-Length bytes follow it (or the header section is empty) |
| `HttpReader.ChunkingIndependent` | src-tauri/src/file/server.rs:118-178 | with a blank line and that condition, header end, header and body are exactly those of the unsplit request |
| `HttpReader.NoHeaderFound` | src-tauri/src/file/server.rs:121-141 | without a blank line every split is given up |
| `HttpReader.FindHeaderEnd` | src-tauri/src/file/server.rs:233-236 | the first position of the blank line, None if and only if there is none |
| `HttpReader.HeaderEndIff` | src-tauri/src/file/server.rs:233-236 | the position is that of the first carriage return, newline, carriage return, newline |
| `HttpReader.HandleReads` | src-tauri/src/file/server.rs:118-178 | the two loops compute the header end, header and body that the lemmas speak of |
| `NetworkCidr.NetworkClearsHostBits` | src/types/network.ts:290-298 | the shift-and-mask form equals the address minus its remainder by 2^(32-n) |
| `NetworkCidr.IpIntIsValue` | src/types/network.ts:294 | shifting and or-ing the octets gives the base-256 value |
| `NetworkCidr.MaskIs` | src/types/network.ts:295 | the mask is 2^32 - 2^(32-n), also at 32 |
| `NetworkCidr.OctetsRecompose` | src/types/network.ts:297 | the octets printed recompose to the number |
| `NetworkCidr.NetworkIdempotent` | src/types/network.ts:290-298 | the network of a network is itself |
| `NetworkCidr.SameNetworkIff` | src/types/network.ts:290-298 | two addresses have the same network if and only if their first n bits agree |
| `NetworkCidr.CidrIsExact` | src/types/network.ts:290-298 | for every address and length: null exactly outside 1 to 32, and otherwise the text is four plain decimal numbers between dots, the octets of the address with its host bits cleared, a slash and the length |
| `NetworkCidr.SameCidrIff` | src/types/network.ts:290-298 | the same for the printed text |
| `NetworkCidr.Cidr24IsVpnSubnet` | src/services/mobileVpn.ts:353-354 | for a /24 the text equals the subnet string the VPN code builds |
| `ProxyCidrs.EffectiveKeptIff` | src-tauri/src/easytier/config.rs:257-306 | deduplication keeps the effective set if and only if the list had a non-blank entry, or the use of the fallback list does not change, or that list adds nothing |
| `ProxyCidrs.BlankEntryHidesFallback` | src-tauri/src/easytier/config.rs:260-264 | a list of one blank entry hides the fallback list, which deduplication brings into use |
| `ProxyCidrs.DedupedIsOrdered` | src-tauri/src/easytier/config.rs:292-306 | the own network if there is one, then the first entry of every other text as it stands, in order |
| `ProxyCidrs.EffectiveIsOrdered` | src-tauri/src/easytier/config.rs:257-287 | the first text of each entry in order, then the own network unless it is among them |
| `ProxyCidrs.DedupedTidy` | src-tauri/src/easytier/config.rs:292-306 | no blank entry, entries distinct up to trimming, own network first, no entry lost |
| `ProxyCidrs.DedupedIdempotent` | src-tauri/src/easytier/config.rs:292-306 | deduplicating twice is deduplicating once |
| `ProxyCidrs.EffectiveMeans` | src-tauri/src/easytier/config.rs:257-287 | the effective list has no duplicates and holds the trimmed non-blank entries of its source and the own network |
| `ProxyCidrs.NetworkConfig.RetainUnseen` | src-tauri/src/easytier/config.rs:293-297 | the first of each text stays, untrimmed, blank ones go |
| `ProxyCidrs.NetworkConfig.RetainOthers` | src-tauri/src/easytier/config.rs:302 | entries equal to the own network up to trimming go |
| `ProxyCidrs.NetworkConfig.DedupeProxyCidrs` | src-tauri/src/easytier/config.rs:292-306 | the list in place becomes the deduplicated one, tidy and with the own network first |
| `ProxyCidrs.NetworkConfig.CollectDistinct` | src-tauri/src/easytier/config.rs:258-270 | the trimmed non-blank entries, each once, in order of first appearance |
| `ProxyCidrs.NetworkConfig.EffectiveProxyCidrs` | src-tauri/src/easytier/config.rs:257-287 | the effective list, whose set is that of its source and the own network |
| `AppTabs.GoodRun` | src/stores/appTabsStore.ts:66-141 | in every run keys are unique, at most ten tabs are open, and the active key is null or open |
| `AppTabs.OpenActivates` | src/stores/appTabsStore.ts:66-90 | the opened tab is active, visible and has the current time; an open one keeps its place and nothing else changes; a new one comes last, the others stay in order, less one when ten are open |
| `AppTabs.SetActiveRefreshes` | src/stores/appTabsStore.ts:92-100 | the tab's time is refreshed and nothing else about the list changes |
| `AppTabs.CloseRemovesExactly` | src/stores/appTabsStore.ts:118-128 | exactly that tab goes, and another active tab stays active |
| `AppTabs.HideOnlyHides` | src/stores/appTabsStore.ts:143-145 | only visibility changes |
| `AppTabs.EvictsLeastRecent` | src/stores/appTabsStore.ts:80-88 | opening an eleventh tab removes exactly one, the first of the least recently active, never the one being opened even on equal times |
| `AppTabs.CloseActivatesMostRecent` | src/stores/appTabsStore.ts:118-128 | closing the active tab activates the first of the most recently active ones, or none if none is left |
| `AppTabs.ClearClosesExactlySpace` | src/stores/appTabsStore.ts:130-141 | exactly the tabs of the space are closed and the others keep their order; the active key changes, and the frame is hidden, if and only if it was one of them |
| `AppTabs.SetActiveIff` | src/stores/appTabsStore.ts:92-100 | setActive keeps the invariant if and only if the key is open |
| `AppTabs.SetActiveOnUnknownKey` | src/stores/appTabsStore.ts:92-100 | with no tab open, setActive leaves an active key that names no tab |
| `AppTabs.SortSorts` | src/stores/appTabsStore.ts:83 | the sort returns the same tabs in order of time |
| `AppTabs.SortHead` | src/stores/appTabsStore.ts:83 | its first element is the first of the best ones, the sort being stable |

## Left out

- Config store: `clear` ends a run; file names are taken to be injective in the config name, content writes atomic and the consumer alive; checksums are carried, not computed; line parsing and JSON are abstract.
- RemoteReadsExact: reads the index entry and the content file at one moment; ReadIsPairedIff covers the read in two steps.
- ResubmitRepairs: asks that no write of the index fails after the restart; such a failure leaves the index behind until the next store.
- Send: the two writes of length and request are one; the send future is not cancelled midway; a failed connection stays failed.
- AlignedRun: asks for messages that fit; AlignedIffLengthsAreSafe gives the exact condition.
- VPN: what `startVpn` and `stopVpn` do inside, what the operating system then routes, the retry of connectSpace, and a listener left by an earlier connection.
- `AppConfig`: the wording of the comments in the built-in list, modification times and hot reload, `get_u16` and `get_bool`.
- Cookies: parsing a Set-Cookie header and HTTP dates (the jar takes the parsed cookie), persistence in the database, case folding of domains.
- FixedPointIff: asks for a hash and sources without semicolons and without white space at the edges; others would be split or trimmed by the next pass.
- Fetch: the time filter of the viewer is fixed while it polls, and its limit is the cap of the ring, as both are 50000 in the program.
- Log ring: `restore`, the file and console backends, wrap-around of the 64-bit counter; lower-casing is a parameter of the filter.
- Request reader: the Content-Length value is a parameter computed from the header bytes; routing, file access and responses.
- NetworkCidr: works on octets; the conversion of text by JavaScript's `Number`, which also accepts forms such as hexadecimal, and `isValidIpv4` are not modelled.
- ProxyCidrs: the own network's text is a parameter; parsing of the address is a library call.
- Tabs: the app, its URLs and load errors, the asynchronous proxy URL, device mode.
- EasyTier RPC and its configuration structures, spaces and share links, the HTTP server, file transfer, SQLite, cryptography, voice and screen media, the user interface, updates and process control.
