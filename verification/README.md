# Vela wallet: verified models

Six parts of the wallet in which state, bytes or threads make the behaviour
hard to see, each modelled in Dafny and proved against what the code is for.

- **The wasm boundary** (`Utf`, `WasmInstance`, `Glue`). JavaScript strings are
  UTF-16, linear memory holds UTF-8. A string crosses over an ASCII fast path, a
  reallocation to three bytes a unit, `encodeInto` and a shrink; arrays of values
  cross as slots of the externref table. Memory may grow at every call into the
  instance, which detaches the buffer the cached views look at.
- **The muting tunnel** (`TlsMute`, `MuteTunnel`). An incremental scanner of TLS
  records decides when the reply direction of a proxied connection falls silent.
- **The ceremony channel** (`Ceremony`, `CeremonyRuns`). Two mailboxes with
  condition variables, a PIN cache per device and a terminal `close`; every
  interleaving of any number of threads, spurious wakeups included.
- **The effect host** (`CoreHost`). It numbers the operations a core asks for and
  passes the answers back, whatever comes late, twice or never.
- **Lists and caches that must agree with their source** (`NetworkSpace`,
  `Snapshot`, `SnapshotRuns`, `Keys`, `PasskeyDirectory`, `ArtworkCaches`). The
  two network spaces and the store snapshot behind them, the directory that asks
  each question once, and the artwork caches with packed or joined keys.
- **Pixels** (`Raster`). The in-place loops that premultiply and swap channels.

A class keeps the fields and the steps of the source; its methods are tied by
`ensures` to functions on values (`Next`, `Scan`, `Answer`, ...), and the
properties are proved about those functions, over all runs where the subject is
a protocol.

## Assumptions

- `malloc`, `realloc`, `memory.grow` and the externref table are compiled code.
  `WasmInstance.Instance` gives them bodies so that the contracts are known to be
  satisfiable; the glue is proved from the contracts alone, which leave open where
  a block lies, whether it moves, whether memory grows and whether the call traps
  (`None`, which raises the count `traps`). Memory never shrinks. An allocation of
  no bytes reserves nothing and does not answer 0.
- The low `reserved` bytes of the memory are static data and stack that no
  allocation touches; the allocator keeps its own books elsewhere.
- A size arrives in the instance modulo 2^32, as an i32 argument does. What
  `realloc` does to something that is not a block, or with no bytes to keep, is
  left open but for the layout of the blocks.
- `TextEncoder` and `TextDecoder` are written out from their standard and from
  sections 3 and 4 of RFC 3629.
- The core behind `CoreHost` is any pair of functions on any model.
- The store replaces the document before it counts the write, and counts under
  the same lock (`executor/storage.rs:245-269`). The count is read atomically. Any
  write may replace any part of the document, the space included, as erasing the
  device does (`executor/device_storage.rs:156-174`).
- Built-in chain ids are distinct where a lemma says `Distinct`.
- The palette of the security-key mark is a function of `dark`.
- A thread on the ceremony channel holds a mailbox's lock from taking it to the
  wait, the return or the unlock, so each critical section is one step.

## Where the code and its own words differ

- `network_space.rs:145-147` says a switch the store refuses holds for the run.
  Until the next counted write it holds if and only if, when the switch changes the
  snapshot, the snapshot is current and no call that read an older count is still on
  its way to it (or the store has that space anyway):
  `SnapshotRuns.RefusedSwitchHolds`. A refusal at the file is counted all the same
  (`storage.rs:264-267`), which leaves the snapshot behind; and a call on another
  thread that has read the count but not yet looked undoes even an uncounted one, for
  every call after it: `SnapshotRuns.StragglerRun`.
- The snapshot is only right while the store keeps the space of a switch that landed
  until that switch has changed the snapshot. Two switching threads break this, and
  so does an erase on a second thread (`SnapshotRuns.DisturbancesHappen`); from every
  such state the run can go on to a stale answer
  (`SnapshotRuns.DisturbedSwitchGoesWrong`). In the app both run on the window's
  thread.
- `space_networks` looks at the snapshot twice. A network removed between the looks
  is listed as a testnet (`NetworkSpace.TornList`).
- PINs stay with their device only while one ceremony runs at a time, and choices
  with their picker: `CeremonyRuns.PinIsolationIsExact` and
  `CeremonyRuns.ChoiceIsolationIsExact`.
- `close` is there to leave no PIN lying around (`ceremony.rs:305-307`), but
  `answer_pin` does not look at `closed`: a PIN posted after it stays in the mailbox,
  though no call will ever take it (`CeremonyRuns.PinPostedAfterClose`, and exactly
  when, `CeremonyRuns.ClosedMailboxKeeps`).
- `passStringToWasm0` computes `offset + 3 * length` as a number and passes it as an
  i32. For a string below 2^31 units the block is then too small for the text if and
  only if that number reaches 2^32 (`Glue.LongStringOverrunsItsBlock`); past 2^32,
  where the memory behind the block has room for the text, it is written there all the
  same (`Glue.Bindings.EncodeRest`). From 2^31 units on the wrapped size can be large
  enough by accident (`Glue.LongerStringCanFit`). An array of 2^30 values or more
  always throws.
- The text above `Mute` says silence begins once the request has gone upstream. It
  begins when the chunk has been read, one step before it is written; nothing can
  come between.
- `hex_of` in `icons.rs` does not clamp, as `hex` in `identicon.rs` does: every
  colour with a channel past 255 would share its cache key with another, and two
  requests be enough for the wrong picture (`ArtworkCaches.OutOfGamutIsServedWrong`).
  Whether an `Hsla` can give such a channel is for gpui's conversion to say, which is
  not part of this model; the colours these files build are hex values, or HSL with
  every part in 0..1, whose channels are at most 255.
- The key of the security-key mark is not injective once an attachment contains a
  bar (`ArtworkCaches.BarsCollide`, `ArtworkCaches.BarIsServedWrong`).

## Model

| member | source | states |
|---|---|---|
| Utf.EncodedScalarDecodes | rust/pkg-web/vela_core.js:7072-7084 | in front of any bytes, the decoder finds exactly the scalar value that was encoded and consumes exactly its bytes |
| Utf.DecodedScalarEncodes | rust/pkg-web/vela_core.js:7072-7084 | conversely each sequence the decoder accepts is the one encoding of its value: no overlong form, no surrogate, nothing past U+10FFFF |
| Utf.EncodingKeepsOrder | rust/pkg-web/vela_core.js:7031 | the bytes of two scalar values compare as the values do, so with the two rows above there is one encoding only into the sequences the decoder accepts |
| Utf.UnitsKeepOrder | rust/pkg-web/vela_core.js:7029-7064 | surrogate pairs compare as the scalar values they stand for, and so do single units |
| Utf.ThreeBytesPerUnit | rust/pkg-web/vela_core.js:7053 | every string, lone surrogates included, encodes to between one and three bytes a unit, the bound the reallocation rests on |
| Utf.ThreeBytesPerUnitIsTight | rust/pkg-web/vela_core.js:7053 | no smaller factor would do: a whole family of strings meets the bound |
| Utf.AsciiPrefix | rust/pkg-web/vela_core.js:7044-7052 | the fast path refines the simple one: units below 0x80 are their own bytes and the rest can be encoded separately behind them |
| Utf.EncodingInPieces | rust/pkg-web/vela_core.js:7049-7056 | encoding in two pieces equals encoding whole if and only if the cut does not part a surrogate pair |
| Utf.EncodedDecodes | rust/pkg-web/vela_core.js:7029-7084 | reading back any encoded string never throws and gives the string with each lone surrogate replaced |
| Utf.DecodedEncodes | rust/pkg-web/vela_core.js:7072-7084 | if bytes are accepted at all, encoding the answer gives those very bytes |
| Utf.ToWellFormedFixes | rust/pkg-web/vela_core.js:7029-7064 | the replacement keeps the length and is the identity exactly on the well-formed strings |
| Utf.ToWellFormedAt | rust/pkg-web/vela_core.js:7029-7064 | unit by unit: a surrogate that stands alone is replaced by U+FFFD, every other unit stays where it is |
| Utf.RoundTrip | rust/pkg-web/vela_core.js:6987-7084 | there and back is the identity if and only if no surrogate stands alone |
| Utf.IgnoreBomIsNeeded | rust/pkg-web/vela_core.js:7072 | without `ignoreBOM` exactly the strings that start with U+FEFF would come back changed |
| WasmInstance.WriteInBlock | rust/pkg-web/vela_core.js:7029-7064 | a write inside one live block changes that block in that place and no other block |
| WasmInstance.MoreMemory | rust/pkg-web/vela_core.js:6979-6997 | growing the memory disturbs no block |
| WasmInstance.U32RoundTrip | rust/pkg-web/vela_core.js:6963-7027 | a 32-bit word read is the one written |
| WasmInstance.U32IsLittleEndian | rust/pkg-web/vela_core.js:6968-7023 | a word read is the number whose bytes these are, the least significant first, and writes the same bytes back |
| Glue.Bindings.constructor | rust/pkg-web/vela_core.js:7066-7110 | fresh bindings are valid for any instance and engine |
| Glue.Bindings.FinalizeInit | rust/pkg-web/vela_core.js:7102-7110 | a new instance, which may grow its memory as it starts, leaves no view of the old one behind |
| Glue.Bindings.MemoryGrows | rust/pkg-web/vela_core.js:6979-6997 | after the buffer is detached and replaced, every cached view is absent, current or can be seen to be dead, and no block and no static byte has changed |
| Glue.Bindings.GetDataViewMemory0 | rust/pkg-web/vela_core.js:6979-6985 | from every such state the view answered looks at the current buffer, whether or not the engine tells detached buffers apart |
| Glue.Bindings.GetUint8ArrayMemory0 | rust/pkg-web/vela_core.js:6991-6997 | the same, where a detached view shows by its length 0 |
| Glue.Bindings.EncodeInto | rust/pkg-web/vela_core.js:7086-7097 | native or stand-in, what is written and what is left to read make up the encoding, it stays in its span, and it stops early only when the next scalar value does not fit; the stand-in throws, and writes nothing, exactly when the whole does not fit |
| Glue.EncodeWhatFits | rust/pkg-web/vela_core.js:7053-7058 | the native loop writes whole scalar values in order, none past the end of the span, and leaves the buffer elsewhere as it was |
| Glue.AllRead | rust/pkg-web/vela_core.js:7053-7060 | with room for the whole encoding `encodeInto` has consumed everything |
| Glue.Bindings.CopyAscii | rust/pkg-web/vela_core.js:7040-7048 | stops at the first unit past 0x7F, having written the units before it from `ptr` on, and no other byte of the memory has changed |
| Glue.Bindings.EncodeIntoView | rust/pkg-web/vela_core.js:7054-7056 | wherever the view and the memory have room for the encoding `encodeInto` consumes everything, and no byte changes but those of the encoding |
| Glue.Bindings.EncodeRest | rust/pkg-web/vela_core.js:7049-7058 | while the room fits in 32 bits the grown block begins with the encoding and nothing else changes; past that the block has the wrapped size, and the text, written behind the prefix, ends past it |
| Glue.Bindings.PassEncoded | rust/pkg-web/vela_core.js:7030-7036 | the simple path adds one block that holds the UTF-8, and nothing else changes; it fails exactly when the allocation traps or the text takes 2^32 bytes or more |
| Glue.Bindings.PassRemainder | rust/pkg-web/vela_core.js:7049-7060 | the grown block keeps the prefix, takes the rest behind it and ends cut to exactly the encoding, wherever `realloc` puts it; it fails only by a trap |
| Glue.Bindings.PassReallocated | rust/pkg-web/vela_core.js:7039-7063 | while the room asked for is below 2^32, the fast path leaves exactly the bytes and the length the simple path leaves, and fails exactly when an allocation traps |
| Glue.Bindings.PassStringToWasm0 | rust/pkg-web/vela_core.js:7029-7064 | for every string whose sizes survive as i32: unless an allocation traps, the memory gains one new block holding its UTF-8 and `WASM_VECTOR_LEN` is the byte count; trap or not, no other block and no static byte is touched |
| Glue.LongStringOverrunsItsBlock | rust/pkg-web/vela_core.js:7053-7056 | for every string below 2^31 units the block asked for is smaller than the encoding if and only if the room reaches 2^32 |
| Glue.LongerStringCanFit | rust/pkg-web/vela_core.js:7053-7056 | at 2^31 + 1 units a string whose room has wrapped can fit all the same |
| Glue.Bindings.DecodeText | rust/pkg-web/vela_core.js:7072-7084 | the same text whether or not the decoder is replaced; it is replaced if and only if the count with this text would reach the limit, and no decoder is fed the limit unless one text alone reaches it |
| Glue.Bindings.GetStringFromWasm0 | rust/pkg-web/vela_core.js:6987-6989 | decodes the bytes of the current memory at the unsigned address |
| Glue.Bindings.StringThereAndBack | rust/pkg-web/vela_core.js:6987-7084 | from every state of the views and the decoder, and if memory grows in between, a string passed in is read back unchanged, or with its lone surrogates replaced, and nothing but an allocation that traps prevents it: the decoder never throws |
| Glue.Bindings.AddToExternrefTable0 | rust/pkg-web/vela_core.js:6892-6896 | unless the allocation traps the value is put in a slot that was free; no other slot and no block changes |
| Glue.Bindings.TakeFromExternrefTable0 | rust/pkg-web/vela_core.js:7066-7070 | the value of a slot in use; the slot is free afterwards |
| Glue.Bindings.PassArrayJsValueToWasm0 | rust/pkg-web/vela_core.js:7019-7027 | each value gets a slot of its own, the new block lists the slots in order, and the words stay right although memory may grow at each step; it fails exactly when an allocation traps or there are 2^30 values or more |
| Glue.Bindings.GetArrayJsValueFromWasm0 | rust/pkg-web/vela_core.js:6963-6972 | the values of the listed slots in order; exactly those slots are given back |
| Glue.WordsAreRead | rust/pkg-web/vela_core.js:6963-7027 | the slots read from a block are the slots listed in it |
| Glue.WordsInOrder | rust/pkg-web/vela_core.js:7021-7024 | word `i` of the list is the bytes of slot `i` |
| Glue.Bindings.ArrayThereAndBack | rust/pkg-web/vela_core.js:6963-7027 | an array comes back whole and in order, and the table ends as it began, unless an allocation traps or there are 2^30 values or more |
| TlsMute.RecordsOfConcat | scripts/device/chaos-proxy.py:76-81 | bytes that arrive later extend the list of complete records and never rewrite it |
| TlsMute.SentRecordsAreRead | scripts/device/chaos-proxy.py:76-81 | of any records encoded whole, type, version and a length of two bytes with the more significant first, and any part of another, exactly the whole ones are read and exactly the part is left |
| TlsMute.EveryStreamIsRecords | scripts/device/chaos-proxy.py:76-81 | and every stream is some records encoded whole and a part of another |
| TlsMute.Mute.ClientSent | scripts/device/chaos-proxy.py:70-90 | the loop ends for every chunk and leaves the state of the recursive scanner |
| TlsMute.ScanReads | scripts/device/chaos-proxy.py:77-90 | each flag of the scanner means a pattern in the records read: a ChangeCipherSpec; a Finished behind one; a request behind that |
| TlsMute.AnyChunksRead | scripts/device/chaos-proxy.py:58-90 | for any cutting of any stream, the mute is on exactly when the complete records hold a request, and until then the buffer and the flags are a function of the bytes |
| TlsMute.AnyChunksOfRecords | scripts/device/chaos-proxy.py:58-90 | for any cutting of some whole records and a part of another: the mute is on exactly when those records hold a request, and while it is off the part waits in the buffer |
| TlsMute.PlainIsMutedByTheFirstWrite | scripts/device/chaos-proxy.py:66-75 | on a plain connection the mute is on from the first client write |
| TlsMute.ChunkingDoesNotMatter | scripts/device/chaos-proxy.py:70-90 | two cuts of the same bytes agree on `on`, and on the whole state while it is off |
| TlsMute.RequestMeans | scripts/device/chaos-proxy.py:58-66 | a request is three records in order: type 0x14, then 0x16 or 0x17, then 0x17, written out as numbers |
| MuteTunnel.Tunnel.ClientTurn | scripts/device/chaos-proxy.py:93-105 | a turn of the upstream direction: the mute hears of the chunk before it is written; the direction goes on unless the chunk is empty or its write fails (over whole runs, `WhatIsCarried`) |
| MuteTunnel.Tunnel.UpstreamTurn | scripts/device/chaos-proxy.py:93-105 | a turn of the other direction: read, and dropped once the mute is on |
| MuteTunnel.Tunnel.Serve | scripts/device/chaos-proxy.py:225-231 | both loops under any schedule follow the transition function |
| MuteTunnel.WhatIsCarried | scripts/device/chaos-proxy.py:93-105 | over every run of either kind of tunnel, counted from the turns alone: upstream gets exactly what the client says before the first empty or failed turn of that direction, the client exactly what upstream says before the mute is on or that direction ends; each direction runs if and only if none of its turns ended it, and has read everything up to then; the mute is on exactly when the request is in what was read |
| MuteTunnel.WhichTurnIsFirst | scripts/device/chaos-proxy.py:95-105 | the turns so counted end at the first that ends the downstream direction (an empty chunk, or a failed write of what is not withheld), and at the first that finds the tunnel muted or ends it |
| MuteTunnel.AlwaysSafe | scripts/device/chaos-proxy.py:93-105 | under every interleaving: the client has a prefix of what upstream sent, all of it as long as there is no request and no write failed, upstream has every client byte in order, and the mute has understood exactly what was read |
| MuteTunnel.SilentAfterRequest | scripts/device/chaos-proxy.py:59-65 | once a request has been read from the client, no continuation passes another byte back |
| MuteTunnel.WithheldOnlyAfterRequest | scripts/device/chaos-proxy.py:59-65 | and no reply byte is withheld before the request is on its way upstream, unless a write failed |
| MuteTunnel.PlainIsSilent | scripts/device/chaos-proxy.py:225-231 | a plain http tunnel passes nothing back from the outset and still forwards every client byte |
| Ceremony.CeremonyChannel.RequestPin | app-desktop/vela-wallet/src/ceremony.rs:212-251 | the mailbox and the outcome up to the first wait: closed, cached, or a question with a cleared answer (which of them over every run, `UsedAgainExactlyWhenTold`) |
| Ceremony.CeremonyChannel.RequestChoice | app-desktop/vela-wallet/src/ceremony.rs:254-276 | the picker's call up to its first wait |
| Ceremony.CeremonyChannel.Close | app-desktop/vela-wallet/src/ceremony.rs:308-319 | both mailboxes are closed, empty and hold a dismissal |
| CeremonyRuns.WakeupsAreNeverLost | app-desktop/vela-wallet/src/ceremony.rs:212-335 | in every run of any number of threads, a thread asleep has no answer waiting and an open channel, unless some thread's `notify_all` is still to come |
| CeremonyRuns.CloseIsTerminal | app-desktop/vela-wallet/src/ceremony.rs:308-335 | in every run a closed mailbox caches no PIN and shows no question, and nobody is left asleep once a `close` has returned |
| CeremonyRuns.NothingAfterClose | app-desktop/vela-wallet/src/ceremony.rs:212-335 | whatever comes after a `close` that returned, the cache stays empty, nothing shows, nobody sleeps and every call that ends, ends in `None` |
| CeremonyRuns.StepAfterClose | app-desktop/vela-wallet/src/ceremony.rs:212-276 | and each call does end, at its next step |
| CeremonyRuns.ClosedMailboxKeeps | app-desktop/vela-wallet/src/ceremony.rs:298-315 | in every run that has closed the mailbox it holds no PIN, cached or as an answer, if and only if the last answer that took effect since the last `close` began was a dismissal or there was none; otherwise it holds that answer |
| CeremonyRuns.PinPostedAfterClose | app-desktop/vela-wallet/src/ceremony.rs:298-315 | a PIN posted after `close` has returned is kept |
| CeremonyRuns.PinIsolation | app-desktop/vela-wallet/src/ceremony.rs:212-251 | with one ceremony at a time, in every run: a PIN returned, cached or not, was typed while the question of that device was showing, and a call that blocked returns what was posted to its own question |
| CeremonyRuns.OverlapBreaksIsolation | app-desktop/vela-wallet/src/ceremony.rs:228-229 | and only then: from every state where two questions overlap, the blocked call can be given the PIN typed for the other |
| CeremonyRuns.PinIsolationIsExact | app-desktop/vela-wallet/src/ceremony.rs:212-251 | a run has one ceremony at a time if and only if each of its prefixes, however it goes on without another question, returns only PINs posted to the callers' own questions or typed for their device |
| CeremonyRuns.AsksAreAlwaysRight | app-desktop/vela-wallet/src/ceremony.rs:228-250 | in every run a blocked call waits on a question that was asked |
| CeremonyRuns.AnswerIsDelivered | app-desktop/vela-wallet/src/ceremony.rs:230-250 | the blocked call returns the answer the screen posts, and the question is gone |
| CeremonyRuns.OneDeviceAtATime | app-desktop/vela-wallet/src/ceremony.rs:219-226 | a refused attempt always asks again and forgets that device's PIN; no step but `close` touches another device's |
| CeremonyRuns.UsedAgainExactlyWhenTold | app-desktop/vela-wallet/src/ceremony.rs:212-251 | in every run, on the open channel: a request that is no retry returns `Some(p)` at once, asking nobody and changing nothing, if and only if `p` is what the last blocked call for that device was told and neither a retry for it nor a `close` came since; every other request waits on a new question with no answer |
| CeremonyRuns.CacheIsWhatWasLastTold | app-desktop/vela-wallet/src/ceremony.rs:219-244 | in every run what is cached for a device is what the last blocked call for it was told, by the run's own record, unless refused or closed since |
| CeremonyRuns.EachAnswerIsTakenOnce | app-desktop/vela-wallet/src/ceremony.rs:230-276 | in every run, however many ask at a time: a call that waited on the open channel returns what one post said, and no two calls return the same post; so for wallets |
| CeremonyRuns.ChoiceIsDelivered | app-desktop/vela-wallet/src/ceremony.rs:254-289 | the blocked picker returns the row or dismissal the screen posts |
| CeremonyRuns.ChoiceIsolation | app-desktop/vela-wallet/src/ceremony.rs:254-276 | with one picker at a time, in every run: a row or dismissal returned was posted while the caller's own question was showing, unless the channel was closed |
| CeremonyRuns.ChoiceIsolationIsExact | app-desktop/vela-wallet/src/ceremony.rs:254-276 | and only then: a run has one picker at a time if and only if each of its prefixes, however it goes on without another question, returns only the callers' own choices |
| CeremonyRuns.NoChoiceNoReturn | app-desktop/vela-wallet/src/ceremony.rs:254-276 | a choice posted before the question never answers it: without a later answer or close no schedule lets the call return |
| CoreHost.CoreHost.Dispatch | app-desktop/vela-wallet/src/core_host.rs:81-84 | the core's effects are numbered and kept, renders aside |
| CoreHost.CoreHost.Resolve | app-desktop/vela-wallet/src/core_host.rs:87-101 | an unknown id changes nothing; a known one is removed first, and stays removed when the core refuses |
| CoreHost.CoreHost.CollectEffects | app-desktop/vela-wallet/src/core_host.rs:109-127 | the loop hands out consecutive ids in order and files each request under its id |
| CoreHost.RequestsInPlace | app-desktop/vela-wallet/src/core_host.rs:109-127 | every effect counts in its place: a request as itself, a render for nothing |
| CoreHost.BooksAlwaysBalance | app-desktop/vela-wallet/src/core_host.rs:81-127 | in every run the ids handed out are 1, 2, 3, ... up to `next_id`, each once, with the operation of the request it numbers, no id is answered twice, and what is pending is what was issued and not answered, under its own id |
| CoreHost.AnsweredExactlyWhenItArrived | app-desktop/vela-wallet/src/core_host.rs:87-101 | an id counts as answered exactly when some `resolve` named it after it was issued |
| CoreHost.StrayAnswerChangesNothing | app-desktop/vela-wallet/src/core_host.rs:92-95 | an answer to an id not yet issued or already answered leaves the whole system as it was |
| CoreHost.IdleMeansAllAnswered | app-desktop/vela-wallet/src/core_host.rs:105-107 | idle exactly when each id issued has had an answer |
| CoreHost.CoreHost.Perform | app-desktop/vela-wallet/src/core_host.rs:81-127 | a run of calls to the host follows the transition function, and ends idle exactly when every operation handed out has been answered |
| CoreHost.HostIsTransparent | app-desktop/vela-wallet/src/core_host.rs:81-127 | over every run the core's model and requests are those of the core driven alone with every event and the first answer to each question it has asked, under the request that asked it; and an id counts as answered exactly when the core alone has been told |
| NetworkSpace.AllNetworks | app-desktop/vela-wallet/src/network_space.rs:110-123 | the loop computes the built-ins followed by the added networks not listed yet |
| NetworkSpace.EveryNetworkOnce | app-desktop/vela-wallet/src/network_space.rs:106-123 | the built-ins stay in front, each id is listed once, and the ids are exactly the built-in and the added ones |
| NetworkSpace.AddedCoin | app-desktop/vela-wallet/src/network_space.rs:116-120 | an added network wears the coin of the first record that names it |
| NetworkSpace.AddedBehind | app-desktop/vela-wallet/src/network_space.rs:106-123 | records added later are listed behind those added before |
| NetworkSpace.FoundIsFirst | rust/crates/vela-core/src/app/network_space.rs:74-77 | the record found for a network is the first that names it |
| NetworkSpace.RetainedInOrder | app-desktop/vela-wallet/src/network_space.rs:94-103 | what is retained keeps its order: the two spaces' shares of any ids, shuffled together, are the ids |
| NetworkSpace.WhatIsListed | app-desktop/vela-wallet/src/network_space.rs:106-123 | a network is listed if and only if it is built in, or is the first record of an id that is not |
| NetworkSpace.SpacesPartitionTheNetworks | app-desktop/vela-wallet/src/network_space.rs:125-132 | whichever document was listed, the two spaces' lists share no id and, shuffled together in order, are the list of all networks |
| NetworkSpace.ListAgreesWithInSpace | app-desktop/vela-wallet/src/network_space.rs:85-132 | a network is on the list in front exactly when the wallet had it at the first look and `in_space` says so at the second |
| NetworkSpace.TornList | app-desktop/vela-wallet/src/network_space.rs:125-132 | a list torn by a write between the looks is wrong exactly about networks only one of the documents has, and takes a removed one for a testnet |
| NetworkSpace.MainnetIsVouchedFor | rust/crates/vela-core/src/app/network_space.rs:70-78 | the mainnet list is exactly what the built-in table calls no testnet, and what is not built in and the person called no testnet |
| SnapshotRuns.AnswersAreRecent | app-desktop/vela-wallet/src/network_space.rs:47-71 | under every interleaving of readers, writers and switches that leaves the store's space alone between a landed switch and its change of the snapshot, each answer holds every write counted by the generation its call read on entry, or the last switch the store refused, or the default of a read that failed |
| SnapshotRuns.CallUndisturbed | app-desktop/vela-wallet/src/network_space.rs:47-71 | undisturbed, a call leaves and answers what was kept under the same count, else the store's document filed under the count read on entry |
| SnapshotRuns.OneAtATime | app-desktop/vela-wallet/src/network_space.rs:47-71 | one caller after another, `with_snapshot` and `switch` on the kept snapshot go through the states and give the answers of the interleaved steps |
| SnapshotRuns.DisturbedSwitchGoesWrong | app-desktop/vela-wallet/src/network_space.rs:144-156 | from every state in which the space is replaced in between, the run can go on without another write or switch to a call that reads the very count that replacement makes and is answered with a space no version from then on has |
| SnapshotRuns.RightExactlyWhenUndisturbed | app-desktop/vela-wallet/src/network_space.rs:47-71 | the answers of every prefix of a run are right, however it goes on without a write or switch, if and only if nothing in the run disturbs a switch |
| SnapshotRuns.DisturbancesHappen | app-desktop/vela-wallet/src/network_space.rs:144-156 | such a state is reached with a second switching thread, or one that erases the store |
| SnapshotRuns.SettledSwitchHolds | app-desktop/vela-wallet/src/network_space.rs:144-156 | a switch that finds the snapshot current and no older call under way holds until a write is counted or another switch made, whatever is written, read or unreadable meanwhile |
| SnapshotRuns.RefusedSwitchHolds | app-desktop/vela-wallet/src/network_space.rs:144-156 | in every run, a switch the store refused is what all later answers say, as long as nothing is counted or switched and reads succeed, if and only if it found the snapshot so settled or the store has that space anyway |
| SnapshotRuns.RefusedSwitchIsForgotten | app-desktop/vela-wallet/src/network_space.rs:144-156 | otherwise a call that starts after the switch can be answered with the store's space |
| SnapshotRuns.StragglerRun | app-desktop/vela-wallet/src/network_space.rs:144-156 | one switching thread is enough: a call that entered earlier refiles the store's document and an uncounted refused switch is lost |
| Keys.DecimalInjective | app-desktop/vela-wallet/src/passkey_directory.rs:69 | printed unsigned integers are equal only if the integers are |
| Keys.LowerMeans | app-desktop/vela-wallet/src/passkey_directory.rs:84-86 | lowering makes two strings equal if and only if they have one length and are letter by letter equal, or 32 apart with one in `A`..`Z` |
| PasskeyDirectory.HolderKeyMeans | app-desktop/vela-wallet/src/passkey_directory.rs:84-86 | two holder keys are equal if and only if the themes are and the models are letter by letter equal, or one in `A`..`Z` and the other its letter 32 further on |
| PasskeyDirectory.MarkKeyMeans | app-desktop/vela-wallet/src/passkey_directory.rs:68-69 | two mark keys are equal if and only if address and size are |
| PasskeyDirectory.KindsNeverCollide | app-desktop/vela-wallet/src/passkey_directory.rs:39 | a holder key is never a mark key, so the kinds can share `asking` |
| PasskeyDirectory.ClaimedOnce | app-desktop/vela-wallet/src/passkey_directory.rs:53-75 | in every run a claim succeeds if and only if nothing before it was about the same question, in either case of its letters |
| PasskeyDirectory.OpenUntilAnswered | app-desktop/vela-wallet/src/passkey_directory.rs:53-81 | in every run a question is open if and only if it has been claimed and not answered |
| PasskeyDirectory.LastAnswerIsFound | app-desktop/vela-wallet/src/passkey_directory.rs:43-51 | in every run what is found for a question is the last answer given to it, in either case of its letters |
| PasskeyDirectory.PasskeyDirectory.Perform | app-desktop/vela-wallet/src/passkey_directory.rs:41-81 | over a run of calls to the directory a claim is told yes exactly when nothing before it was about the same question, and what is found is the last answer given |
| PasskeyDirectory.SettlesOneQuestion | app-desktop/vela-wallet/src/passkey_directory.rs:62-81 | settling one question leaves every other, open or answered, as it was |
| ArtworkCaches.CacheIsTransparent | app-desktop/vela-wallet/src/icons.rs:346-366 | every run of requests from a domain is answered as drawing afresh would if and only if the key tells apart there what must look different |
| ArtworkCaches.Cache.GetAll | app-desktop/vela-wallet/src/icons.rs:349-366 | over a run of requests the cache answers and keeps what the run function says |
| ArtworkCaches.ColorSurvives | app-desktop/vela-wallet/src/icons.rs:328-334 | the packed key gives the colour back if and only if no channel is past 255 |
| ArtworkCaches.OutOfGamutCollides | app-desktop/vela-wallet/src/icons.rs:328-334 | each colour with a channel past 255, if there is one, shares its key with another |
| ArtworkCaches.OutOfGamutIsServedWrong | app-desktop/vela-wallet/src/icons.rs:328-366 | were an `Hsla` to give a channel past 255, two requests would be enough for the cache to answer with the wrong picture, with any rasterizer that tells the colours apart |
| ArtworkCaches.IconsAreFresh | app-desktop/vela-wallet/src/icons.rs:349-366 | for colours in gamut every run of icon requests is answered as drawing afresh would |
| ArtworkCaches.MarkTextMeans | app-desktop/vela-wallet/src/identicon.rs:82-85 | two joined keys are equal if and only if choice, theme and size are and attachment and transports join to one text |
| ArtworkCaches.BarsCollide | app-desktop/vela-wallet/src/identicon.rs:82-85 | each request whose attachment contains a bar shares its key with another |
| ArtworkCaches.BarIsServedWrong | app-desktop/vela-wallet/src/identicon.rs:73-106 | and two requests are enough for the wrong mark, with any rasterizer that tells them apart |
| ArtworkCaches.MarksAreFresh | app-desktop/vela-wallet/src/identicon.rs:73-106 | as long as no attachment contains a bar every run of requests is answered as drawing afresh would |
| Raster.PremulIsNearest | app-desktop/vela-wallet/src/raster.rs:20-21 | no intermediate value leaves 16 bits; the result is the one integer nearest to c·a/255, and exceeds neither the channel nor the alpha |
| Raster.Premultiply | app-desktop/vela-wallet/src/raster.rs:19-26 | the loop leaves every pixel as premultiplied blue, green, red, in that order, and its own alpha |
| Raster.SwapChannels | app-desktop/vela-wallet/src/raster.rs:35-37 | for every pixel, whatever its alpha, the loop exchanges the first and third byte and leaves the second and fourth |
| Raster.SwappingUndoesItself | app-desktop/vela-wallet/src/raster.rs:35-37 | swapping a swapped image gives the image back |
| Raster.OpaqueIsOnlySwapped | app-desktop/vela-wallet/src/raster.rs:19-26 | on an opaque pixel the first loop does what the second does |

## Left out

- ArtworkCaches.IconsAreFresh: colours start as the rounded channels of `hex_of`; the float conversion from HSLA is not modelled, and neither is 32-bit overflow of twice the logical size.
- ArtworkCaches.MarksAreFresh: the palette's three theme colours are taken as determined by `dark`; a third theme would need its own argument.
- SnapshotRuns.AnswersAreRecent: the path of the store, which is compared beside the count, is constant here.
- CoreHost.BooksAlwaysBalance: ids are unbounded; the wrap of a 64-bit counter is not modelled.
- MuteTunnel.AlwaysSafe: a chunk whose write or drain fails counts as not written, and its direction ends at once.
- Glue.Bindings.ArrayThereAndBack: when an allocation traps half way, the slots taken so far stay taken, as they do in the source, and nothing is claimed about them.
- Glue.Bindings.PassStringToWasm0: past 2^32 bytes of room nothing is promised about the memory, because the source corrupts it.
- Glue.Bindings.TakeFromExternrefTable0: what a slot not in use reads as is left open.
- Raster.Premultiply: a length that is no multiple of 4 is excluded; an RGBA buffer has none.
- The exported wrappers of `vela_core.js` and everything they call: compiled code that is not part of this model.
- `passArray8ToWasm0`, `getArrayU8FromWasm0`, `handleError` and `debugString`: straight copies and plumbing beside the string and array paths.
- The other modes of the proxy (drop, blackhole, stall, latency, throttle, reset), the `CONNECT` handshake, the log and the control address: timing and sockets.
- Mutex poisoning, the touch prompt, the QR, `dismissed` and the trusted signer in `ceremony.rs`: no protocol of their own; `dismissed` may be cleared after `close`.
- `view` of the effect host: it only reads the core.
- `networks_changed`, `feed_event` and the machines told of a switch: calls into other components.
- `IconCache::turning`, `IdenticonCache::avatar` and `passkey_mark`: instances of the same cache whose keys hold the whole input, or the packed colour already treated.
- SVG documents, PNG decoding, rasterizing, HTTP and the file format of the store: parameters or abstract state here.
