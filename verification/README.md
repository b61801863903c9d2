# Dashboard verification model

A Dafny model of the algorithms under the vehicle dashboard: playing a recording back,
pairing a phone and talking to it over an encrypted channel, undoing edits, and the smaller
self-contained pieces those rest on. For each, the code's own steps are written out as
methods or as transitions of a state machine, and what the code promises about them is
proved for every input, every run or every interleaving.

* **Recorded playback.** `GopWindow` says which messages of an indexed stream make up the
  window for a position and shows that windows cover and tile. `RecordedSource` is the state
  the GUI thread and the worker share, one transition for each region under the mutex;
  `RecordedInvariant` holds over every interleaving and `RecordedConvergence` shows that a
  standing position reaches the right window in three rounds. `Playback` is the same object
  written imperatively: each region under the lock makes exactly one of those transitions and
  keeps everything proved of runs, and the calls made of them, up to settling on a position,
  promise what the theorems say.
  `SampleRing`, `RingInterleaving`, `SignalRefill`, `CaptureBuffer`, `Decimate` and `Buckets`
  are the buffers underneath and what is drawn from them.
* **Pairing and the control channel.** `Numbers`, `Srp` and `SrpGroup` are SRP-6a (section
  2.6 of RFC 5054); `Tlv8` the fragmenting codec; `PairingSession` the accessory's handshake
  machine; `PairingRun` an honest controller driving it end to end; `ChannelCrypto` the
  framing; `Rtsp` the incremental parser and `RtspText` a printer it reads back;
  `ControlSession` the read loop, `ControlRequests` requests through it; `SecureChannel` the
  handshake's keys installed on both ends. Hashing, authenticated encryption, X25519 and
  Ed25519 are functions with their usual laws (`CryptoLaws`), and nothing else about them is
  used.
* **Editing.** `EditorDocument` is the undo history, `Canvas` the live frames and the
  restore by diff, `EditorNames` derived names over whole editing sessions, and
  `EditorSession` the canvas with its history: every edit, undo and redo on live widgets.
* **Self-contained algorithms.** `Nalu` (NAL units and keyframes), `Ntp` and `Timing` (clock
  discipline, section 8 of RFC 5905), `EventQueue`, and `Locator` with `SelectorText`
  (widget paths). `Basics`, `Modular` and `Decimal` hold shared facts.

Times are integer nanoseconds, or reals where the code takes fractions of them. Randomness,
clock readings and what a socket delivers are arguments of the step that uses them.

Where the code and what one would expect of it part ways, the model follows the code and
says exactly when the expectation holds:

* A window is read by time, so the messages delivered are the index entries of that window
  if and only if no two messages are stamped alike at its edges (`RecordedSource.RunIsWindow`;
  `RecordedSource.TieMovesMessage` is a stream where they are).
* Windows partition what they reach: every entry from the first window's start on is in exactly
  one window, unless it is in a preamble run at the very end of the recording, which is in none
  (`GopWindow.EveryEntryInOneWindow`, `GopWindow.TrailingPreambleIsLost`). A window holds
  everything the position has reached exactly when content that is no preamble is still ahead
  of the last entry reached (`GopWindow.WindowHoldsAllReached`).
* After a tick of any length and direction a drained buffer equals a rebuilt one exactly when
  the tick crossed a sample, or what was retained reaches back to the retention bound at the
  new position, or it fills the ring (`SignalRefill.TickAsRebuiltIff`). Every forward run meets
  that; a tick backwards need not (`SignalRefill.BackwardTickDiffers`), but the transport never
  asks for one: it clamps the rate to a positive range (scope/time_base.cpp:429-442).
* How bytes are cut into reads stops being irrelevant when a frame does not authenticate:
  requests read together with the bad frame are lost (`ControlSession.BadFrameLosesItsRead`,
  and `ControlRequests.CuttingCanMatter` for actual bytes), and what is handled is always a
  prefix (`ControlSession.HandledIsPrefix`).
* A widget's derived name is fresh unless somebody chose that very name as an explicit id
  (`EditorNames.NextNameIsFresh`).
* A widget's path starts at the window it is in, with or without a parent, and resolving
  starts at the roots. So every widget of a window is found again from its own path if and only
  if the window is a root, its segment picks it from the roots, and no object name inside it
  gets in the way of a class (`Locator.WindowResolvesIff`, and `Locator.EveryPathResolves` for
  all that the roots reach). Nothing in a window that is no root is ever found
  (`Locator.UnlistedWindowLost`), which with the default roots takes in every popup, so every
  menu (`Locator.TransientWindowLost`). A dialog that a window owns is a root and is found
  (`Locator.OwnedBoxFound`); two of one class with one owner are numbered as siblings but picked
  by the order of the roots, so each path can lead to the other (`Locator.RootOrderDecides`).
* A forced refill inside the window being shown hands nothing over: the comment at
  scope/recorded_source.cpp:770-772 promises a second publishing for a backward scrub, the code
  asks for a load only when the window changes (`RecordedConvergence.ScrubHandsNothing`).
* Restoring a snapshot by diff tears down the first frame of each name that the document does
  not claim; a further frame of that name stays a child of the canvas without being part of the
  document. None does if and only if the frames on the canvas all had names of their own
  (`Canvas.Canvas.RestoreByDiff`).
* A session is verified exactly when some M3 passed at its moment, and one with no key to hold
  its signature against passes (`PairingSession.VerifiedIffChecked`). A phone on file always
  has such a key (`PairingSession.KnownPhoneMustSign`).
* Converting nanoseconds to NTP and back loses a nanosecond exactly for times that are no
  multiple of 1 953 125 ns (`Ntp.RoundTrip`).

## Model

| member | source | states |
|---|---|---|
| `GopWindow.FindReached` | scope/recorded_source.cpp:719-741 | the binary search returns how many entries are at or before the position |
| `GopWindow.FindGopStart` | scope/recorded_source.cpp:711-765 | the three searching loops return the governing seek point extended back over its preamble, or nothing when no seek point has been reached |
| `GopWindow.FindWindowEnd` | scope/recorded_source.cpp:461-482 | the loops return one past the window's last entry, stopping short of the next window's preamble |
| `GopWindow.WindowExists` | scope/recorded_source.cpp:736-756 | there is a window exactly when some seek point is at or before the position |
| `GopWindow.WindowCovers` | scope/recorded_source.cpp:453-482 | the window holds the last seek point reached, the whole preamble run before it, and exactly those entries up to the position with content ahead of them before the next seek point or the end |
| `GopWindow.WindowHoldsAllReached` | scope/recorded_source.cpp:461-482 | exactly when the window holds everything the position has reached |
| `GopWindow.WindowsTile` | scope/recorded_source.cpp:475-482 | each window ends exactly where the window of the following seek point starts |
| `GopWindow.SeekWindow` | scope/recorded_source.cpp:461-482 | each seek point has a window, from its own preamble run to the next one's |
| `GopWindow.EveryEntryInOneWindow` | scope/recorded_source.cpp:453-490 | every entry from the first window's start on lies in exactly one window, unless it is in the preamble run at the very end, and then in none |
| `GopWindow.TrailingPreambleIsLost` | scope/recorded_source.cpp:478-482 | a recording that ends with a preamble message no window holds |
| `RecordedSource.WindowIsRun` | scope/recorded_source.cpp:484-522 | what a window load reads is one contiguous run of the stream, whatever the stamps |
| `RecordedSource.RunIsWindow` | scope/recorded_source.cpp:484-490 | that run is exactly the window's index entries if and only if no stamps tie at its edges |
| `RecordedSource.TieMovesMessage` | scope/recorded_source.cpp:484-490 | a stream with tied stamps where a message is read with the window after its own |
| `RecordedSource.RangeThenFilter` | scope/recorded_source.cpp:500-522 | reading a range of the whole recording and keeping one key's messages is cutting that key's stream by time |
| `RecordedSource.CollectWindow` | scope/recorded_source.cpp:497-522 | what is loaded is the messages of the key, of no schema or the one asked for, in the closed time range: each once, in recorded order, with its own time and payload |
| `RecordedSource.SliceCollects` | scope/recorded_source.cpp:503-524 | cutting a key's stream by time keeps exactly the messages wanted, and which they are |
| `RecordedSource.FlagsRead` | scope/include/scope/raw_buffer.h:45-51 | the two lowest bits of a message's flags are the seek point and the preamble of its entry |
| `RecordedInvariant.Erased` | scope/recorded_source.cpp:541-553 | erasing removes all and only the matching jobs, and the count returned is the number of whole-recording passes among them |
| `RecordedInvariant.StepKeeps` | scope/recorded_source.cpp:584-622 | every region of either thread keeps the shared invariant |
| `RecordedInvariant.BindKeeps` | scope/recorded_source.cpp:916-954 | a bind, at any moment, keeps the invariant |
| `RecordedInvariant.BindRawKeeps` | scope/recorded_source.cpp:956-986 | so does a raw bind |
| `RecordedInvariant.ReleaseKeeps` | scope/recorded_source.cpp:1011-1036 | so does a release, even with the worker inside the binding's job |
| `RecordedInvariant.ReleaseRawKeeps` | scope/recorded_source.cpp:988-1009 | so does a raw release |
| `RecordedInvariant.ScanKeeps` | scope/recorded_source.cpp:778-830 | so does the scan of a raw refill |
| `RecordedInvariant.PublishKeeps` | scope/recorded_source.cpp:837-853 | so does publishing one staged window |
| `RecordedInvariant.WorkerKeeps` | scope/recorded_source.cpp:584-622 | so does every step of the worker |
| `RecordedInvariant.HandedWindowsAreComplete` | scope/recorded_source.cpp:837-853 | over every interleaving each window ever handed to a raw buffer is the complete window of the index that some position selects |
| `RecordedInvariant.HandedWindowIsIndexRun` | scope/recorded_source.cpp:484-522 | for a stream in time order those are the index entries from a selected start up to its window's end, unless stamps tie at an edge |
| `RecordedInvariant.PublishHandsLoadedWindow` | scope/recorded_source.cpp:837-853 | and at that moment it is the one `loaded_start` names |
| `RecordedInvariant.PendingCountsPasses` | scope/recorded_source.cpp:615-620 | `pending` is the queued whole-recording passes plus one if the worker is running one, through binds and releases at any point |
| `RecordedInvariant.ZeroPendingMeansReady` | scope/recorded_source.cpp:1134-1138 | when the count reads zero every binding still in a map is ready |
| `RecordedInvariant.AtMostOneQueuedLoad` | scope/recorded_source.cpp:815-823 | a binding has at most one window load queued, a released one none |
| `RecordedConvergence.DrainDelivers` | scope/recorded_source.cpp:524-535 | a request on its way survives a whole drain of the worker's queue and arrives staged |
| `RecordedConvergence.ThreeRounds` | scope/recorded_source.cpp:773-854 | from one binding's side, three rounds of drain and tick reach the target whatever was queued or staged before |
| `RecordedConvergence.Converges` | scope/recorded_source.cpp:773-854 | from any reachable state three rounds at a standing position leave no job and nothing staged, and the last window handed over is exactly the one the position selects |
| `RecordedConvergence.ScrubHandsNothing` | scope/recorded_source.cpp:770-825 | over every interleaving from a reachable state that shows a window, scans that stay inside it, forced or not, hand nothing over again |
| `Playback.Impl.EraseQueued` | scope/recorded_source.cpp:541-582 | the loop erases all and only the jobs named and returns how many `pending` had counted |
| `Playback.Impl.ReleaseSignal` | scope/recorded_source.cpp:1011-1036 | the method makes exactly the release transition, counting down only what had not started, and keeps the invariant |
| `Playback.Impl.ReleaseStream` | scope/recorded_source.cpp:988-1009 | the method makes exactly the raw release transition, keeps the invariant and leaves no load queued for the binding |
| `Playback.Impl.ScanBinding` | scope/recorded_source.cpp:781-824 | one binding's turn: published, asked for or left, never two of them |
| `Playback.Impl.RefillAllRaw` | scope/recorded_source.cpp:773-830 | the walk over all bindings under the lock is exactly the scan transition and keeps the invariant |
| `Playback.Impl.PublishNext` | scope/recorded_source.cpp:837-853 | what goes to the buffer is one complete window of the index, the one its recorded start names |
| `Playback.Impl.LoadWindowBegin` | scope/recorded_source.cpp:436-495 | the first region of a load takes the latest request, not the queued one |
| `Playback.Impl.WorkOnce` | scope/recorded_source.cpp:584-622 | whichever region the worker has come to, it makes the model's step, keeps the invariant and gets nearer to done |
| `Playback.Impl.WorkUntilQuiet` | scope/recorded_source.cpp:584-622 | left alone the worker ends idle with nothing queued or pending and every binding ready |
| `Playback.Impl.TickOnce` | scope/recorded_source.cpp:1120-1122 | the scan and everything it found staged, published one by one |
| `Playback.Impl.DecodesPending` | scope/recorded_source.cpp:1134-1138 | a reading of zero means every binding is ready |
| `Playback.Impl.Settle` | scope/recorded_source.cpp:773-854 | whatever was queued, staged or half read before, three rounds of work and tick leave nothing to do and every decodable raw buffer holding exactly the window for the position |
| `SampleRing.StagingRing.Push` | scope/sample_ring.cpp:18-38 | appends unless the ring holds its capacity, when the sample is counted as dropped |
| `SampleRing.StagingRing.Drain` | scope/sample_ring.cpp:47-64 | moves exactly the ring's contents, in order, to the end of the output |
| `SampleRing.UnrolledWrite` | scope/sample_ring.cpp:18-38 | writing the place past the occupied part of a circular store appends one element |
| `SampleRing.UnrolledOverwrite` | scope/sample_ring.cpp:72-84 | overwriting the oldest place of a full store drops that element and appends one |
| `SampleRing.SampleHistory.Append` | scope/sample_ring.cpp:72-84 | the history is the last so many samples of everything appended |
| `SampleRing.SampleHistory.LowerBound` | scope/sample_ring.cpp:86-106 | the search returns the number of samples before the time |
| `SampleRing.SampleHistory.TrimOlderThan` | scope/sample_ring.cpp:108-117 | drops exactly the samples before the bound |
| `SampleRing.SignalBuffer.Drain` | scope/sample_ring.cpp:142-156 | what was staged joins the history, which is then trimmed to the retention |
| `SampleRing.SignalBuffer.Append` | scope/sample_ring.cpp:177-184 | the history is the last so many of what was retained and what is appended |
| `SampleRing.SignalBuffer.ReplaceHistory` | scope/sample_ring.cpp:171-175 | staged and retained samples give way to the last so many of the new ones |
| `SampleRing.SignalBuffer.Clear` | scope/sample_ring.cpp:158-169 | nothing is left staged or retained; the lifetime count stays |
| `RingInterleaving.FullMeansFull` | scope/sample_ring.cpp:18-38 | the producer's test sees a full ring exactly when the FIFO is at capacity |
| `RingInterleaving.StepKeeps` | scope/sample_ring.cpp:18-64 | each single memory access of either thread keeps the ring's invariant |
| `RingInterleaving.StepRefinesFifo` | scope/sample_ring.cpp:18-64 | each access is a step of a bounded FIFO: only publishing the head enqueues, only publishing the tail dequeues, exactly what the drain took |
| `RingInterleaving.RefusedOnlyWhenFull` | scope/sample_ring.cpp:18-38 | a push is refused only at a moment when the FIFO is full, and goes ahead only when it is not |
| `RingInterleaving.DrainedIsPrefixOfAccepted` | scope/sample_ring.cpp:18-64 | over every interleaving drained samples are a prefix of accepted ones, no live slot is overwritten, and accepted plus dropped is pushed |
| `RingInterleaving.DrainTakesAllSeen` | scope/sample_ring.cpp:47-64 | a drain takes everything published when it loaded the head |
| `SignalRefill.Binding.Refill` | scope/recorded_source.cpp:636-674 | the method replaces, appends or leaves the buffer as the specification says |
| `SignalRefill.Binding.DrainAt` | scope/sample_ring.cpp:142-156 | a drain with nothing staged trims to the retention at the position |
| `SignalRefill.StepOk` | scope/recorded_source.cpp:1065-1122 | a seek, a forward tick or a drain keeps the buffer a contiguous slice that ends at the position |
| `SignalRefill.DrainOk` | scope/recorded_source.cpp:636-674 | trimming such a slice leaves what a rebuild would |
| `SignalRefill.RefillEqualsRebuild` | scope/recorded_source.cpp:636-674 | over every run of seeks, forward ticks and drains, a drain leaves exactly what a forced rebuild would, also when the ring overflowed |
| `SignalRefill.TickAsRebuiltIff` | scope/recorded_source.cpp:1100-1122 | after a tick of any length and direction, exactly when a drain gives what a rebuild would |
| `SignalRefill.BackwardTickDiffers` | scope/recorded_source.cpp:1100-1122 | a backward tick for which that condition fails |
| `CaptureBuffer.Buffer.Push` | scope/capture_buffer.cpp:26-35 | the buffer becomes what one push leaves of it, `bytes_` stays the exact sum of sizes, and retained plus evicted grows by one |
| `CaptureBuffer.Buffer.Evict` | scope/capture_buffer.cpp:45-86 | eviction drops a prefix, and what it drops is counted in messages and bytes |
| `CaptureBuffer.Buffer.EvictForBytes` | scope/capture_buffer.cpp:45-62 | the loop for the byte bound drops no more than it must |
| `CaptureBuffer.Buffer.EvictForAge` | scope/capture_buffer.cpp:64-85 | the loop for the time bound drops exactly the leading messages too old for the newest |
| `CaptureBuffer.Buffer.SetBounds` | scope/capture_buffer.cpp:37-43 | new bounds evict at once |
| `CaptureBuffer.Buffer.Clear` | scope/capture_buffer.cpp:206-216 | the messages go, the lifetime eviction counts stay |
| `CaptureBuffer.EvictedIsLongest` | scope/capture_buffer.cpp:45-86 | one eviction leaves the longest suffix that fits both bounds |
| `CaptureBuffer.KeptIsLongest` | scope/capture_buffer.cpp:26-86 | a push onto the longest fitting suffix leaves the longest fitting suffix of everything pushed |
| `CaptureBuffer.OnlineIsOffline` | scope/capture_buffer.cpp:26-86 | after any number of pushes with fixed bounds and times in order the buffer is the longest suffix of everything pushed that fits both bounds |
| `CaptureBuffer.Buffer.ForEach` | scope/capture_buffer.cpp:88-107 | hands over exactly the specified messages, in order |
| `CaptureBuffer.VisitedIsWindow` | scope/capture_buffer.cpp:94-106 | with times in order those are exactly the messages in the window: stopping early misses none |
| `CaptureBuffer.Buffer.Density` | scope/capture_buffer.cpp:109-153 | each 32-bit counter is the number of visited messages placed in its bucket, and below 2^32 messages the counters returned sum to what is visited |
| `CaptureBuffer.BucketCovers` | scope/capture_buffer.cpp:135-151 | short of the 64-bit limit a bucket covers its own slice of the window and no other, the last one closed at the top |
| `CaptureBuffer.CountsSum` | scope/capture_buffer.cpp:109-153 | counters that cannot have wrapped add up to the number of messages counted |
| `Decimate.ColumnCovers` | scope/decimate.cpp:49-55 | column k covers its own slice of the window and no other, the last one including the right edge |
| `Decimate.ShownIsWindow` | scope/decimate.cpp:28-41 | the samples walked over are exactly those timed inside the window |
| `Decimate.WidenDescribes` | scope/decimate.cpp:57-74 | one more sample keeps a column's minimum, maximum, first and last right |
| `Decimate.PlaceSample` | scope/decimate.cpp:57-74 | the loop body updates one column and says whether it was empty |
| `Decimate.FillColumns` | scope/decimate.cpp:35-75 | the loop leaves every column describing exactly its own samples |
| `Decimate.DecimateMinMax` | scope/decimate.cpp:9-77 | the columns describe the window's samples, the number returned is how many have any, and it is zero exactly for an empty window |
| `Decimate.NothingLost` | scope/decimate.cpp:57-74 | every sample of the window is within the extent of its own returned column |
| `Decimate.NothingInvented` | scope/decimate.cpp:57-74 | a returned column's extremes are samples that fall in it |
| `Decimate.EnvelopeExact` | scope/decimate.cpp:9-77 | the returned columns have exactly the window's extent: any bounds hold for all of them just when they hold for all the samples |
| `CryptoLaws.LawsHaveAModel` | libs/airplay/include/airplay/crypto.h:31-58 | concrete primitives of these signatures obey every law assumed of them, so the laws contradict neither themselves nor each other |
| `Numbers.PaddedRoundTrip` | libs/airplay/srp.cpp:68-78 | the fixed-width encoding of a number that fits reads back as that number |
| `Numbers.ToBytesRoundTrip` | libs/airplay/srp.cpp:54-65 | so does the minimal one |
| `Numbers.MostSignificantFirst` | libs/airplay/srp.cpp:54-78 | byte strings are read most significant byte first |
| `Srp.StripVerifier` | libs/airplay/srp.cpp:495-505 | taking k·g^x off B leaves g^b modulo N |
| `Srp.ServerBase` | libs/airplay/srp.cpp:353-360 | A·v^u is g^(a + u·x) modulo N |
| `Srp.SecretsAgree` | libs/airplay/srp.cpp:337-388 | the server's (A·v^u)^b and the client's (B − k·g^x)^(a + u·x) are both g^(b·(a + u·x)) modulo N |
| `Srp.PublicValues` | libs/airplay/srp.cpp:245-290 | both public values survive the 384-byte encoding exactly, so both ends hash the same u |
| `Srp.Client.ComputeProof` | libs/airplay/srp.cpp:456-522 | a proof comes out exactly when B is usable, is kept, and every honest server of this user that sent that salt and B accepts it and holds the same key; else nothing changes |
| `Srp.Client.CheckServerProof` | libs/airplay/srp.cpp:524-534 | accepts exactly the server's proof for what was kept |
| `Srp.Agreement` | libs/airplay/srp.cpp:316-534 | the exchange completes, both ends holding one key and accepting each other's proof, if and only if neither public value is zero modulo N |
| `Srp.AcceptsOneProof` | libs/airplay/srp.cpp:364-377 | whatever public value a client sends, there is at most one proof the server accepts with it, that of its own key |
| `Srp.OnlyThatProof` | libs/airplay/srp.cpp:364-389 | an honest server accepts a proof if and only if it is the honest client's for this password, and that client a reply if and only if it is the server's |
| `Srp.ProofMessageBinds` | libs/airplay/srp.cpp:195-202 | no two different sets of user, salt, public values and key are hashed as one message |
| `Srp.AcceptedReachedTheSecret` | libs/airplay/srp.cpp:337-389 | a client whose proof is accepted, whatever it was told and whatever its password, used this salt and public value and reached the server's very secret, unless it met two named messages that share a hash |
| `Srp.PasswordBinds` | libs/airplay/srp.cpp:158-175 | two passwords give one exponent only through two named messages that share a hash |
| `Srp.MultiplierBinds` | libs/airplay/srp.cpp:127-130 | two groups give one multiplier only through two named messages that share a hash |
| `Srp.MaskComesOff` | libs/airplay/srp.cpp:140-150 | the mask in the proof is exclusive or: masking again with the generator's hash gives the modulus's |
| `Srp.ProofAccepted` | libs/airplay/srp.cpp:316-534 | whatever salt and B a server sent, if it is an honest server of this user it accepts the client's proof, and its own is accepted in turn |
| `Srp.Rfc5054GroupFits` | libs/airplay/srp.cpp:107-156 | the 3072-bit group meets what the theorem asks of one |
| `SrpGroup.InvertibleNeverZero` | libs/airplay/srp.cpp:432-439 | no power of an invertible residue is zero |
| `SrpGroup.HonestClientNeverZero` | libs/airplay/srp.cpp:337-342 | in that group an honest client's public value is never zero modulo N, so the server's zero check never refuses one |
| `Tlv8.EncodeValue` | libs/airplay/tlv8.cpp:15-30 | the loop cuts a value into fragments of at most 255 bytes |
| `Tlv8.Encode` | libs/airplay/tlv8.cpp:10-33 | the encoding is the items' fragments one after the other |
| `Tlv8.DecodeOne` | libs/airplay/tlv8.cpp:39-60 | one chunk continues the last item or starts its own; a truncated one ends the list |
| `Tlv8.Decode` | libs/airplay/tlv8.cpp:35-63 | the loop decodes as specified, from any bytes |
| `Tlv8.DecodeEncode` | libs/airplay/tlv8.cpp:10-63 | decoding an encoding merges an item into its predecessor exactly where types match and the accumulated length is a non-zero multiple of 255 |
| `Tlv8.RoundTripIffNormal` | libs/airplay/tlv8.cpp:10-63 | a list survives the wire unchanged if and only if no two neighbours are such |
| `Tlv8.DecodeIsCanonical` | libs/airplay/tlv8.cpp:35-63 | whatever the bytes, what they decode to survives encoding and decoding |
| `Tlv8.WireSize` | libs/airplay/tlv8.cpp:20-32 | a value costs two bytes for each 255 of its own, begun or whole |
| `PairingSession.Session.HandlePairSetup` | libs/airplay/pairing_session.cpp:140-291 | the handler makes exactly the specified transition and reply for M1, M3, M5 and anything else |
| `PairingSession.Session.SetupProof` | libs/airplay/pairing_session.cpp:174-209 | a proof is accepted or refused exactly as specified (`OneProofPasses`): a refusal changes nothing, an acceptance keeps the key |
| `PairingSession.OneProofPasses` | libs/airplay/pairing_session.cpp:174-210 | of the M3 bodies with one public value only those with one proof pass; every other is answered with the error and changes nothing |
| `PairingSession.Session.SetupExchange` | libs/airplay/pairing_session.cpp:211-283 | M5: the phone's name and key are learned, saved and answered |
| `PairingSession.Session.HandlePairVerify` | libs/airplay/pairing_session.cpp:293-451 | the handler makes exactly the specified transition and reply for M1, M3 and anything else |
| `PairingSession.Session.VerifyStart` | libs/airplay/pairing_session.cpp:303-350 | M1: the shared secret and the session key are set, and the accessory signs both ephemeral keys |
| `PairingSession.Session.VerifyFinish` | libs/airplay/pairing_session.cpp:353-444 | M3: control keys and `verified` are set exactly when the signature holds under the key on file, or there is no key |
| `PairingSession.PairedOnlyAfterProof` | libs/airplay/pairing_session.cpp:140-291 | whatever requests arrive in whatever order, a session is paired only if one of them was an M3 with the one proof of a client that reached the running server's secret |
| `PairingSession.VerifiedIffChecked` | libs/airplay/pairing_session.cpp:344-442 | whatever requests arrive in whatever order, a session is verified exactly when one of them was an M3 that opened under the exchange in progress and whose signature held under the key then expected, or found no key to be held against |
| `PairingSession.KnownPhoneMustSign` | libs/airplay/pairing_session.cpp:397-426 | whatever requests come first, a phone on file is still held against a key |
| `PairingSession.SavedIsFound` | libs/airplay/pairing_store.cpp:202-241 | what is saved is found under its name, exactly when the store is enabled, name and key are there and the name has no space in it; nothing else moves |
| `PairingSession.UsesApart` | libs/airplay/pairing_session.cpp:229-437 | no two of the five keys derived are derived for the same use |
| `PairingRun.Setup5` | libs/airplay/pairing_session.cpp:211-283 | an honest M5 is accepted and its answer checks out |
| `PairingRun.SetupCompletes` | libs/airplay/pairing_session.cpp:140-291 | pair-setup with the right password completes, from any earlier state, exactly when the two zero checks pass; each end then holds the other's long-term key |
| `PairingRun.VerifyStart` | libs/airplay/pairing_session.cpp:303-350 | both ends derive one secret, and the controller accepts the accessory's signature |
| `PairingRun.VerifyFinish` | libs/airplay/pairing_session.cpp:353-444 | the accessory accepts the controller's signature |
| `PairingRun.VerifyCompletes` | libs/airplay/pairing_session.cpp:293-442 | pair-verify completes with equal control keys for a controller whose key is expected, or for which there is none |
| `PairingRun.HandshakeCompletes` | libs/airplay/pairing_session.cpp:140-442 | the whole handshake gets through exactly when the two zero checks pass, and then ends paired and verified with equal control keys on both sides, although B always fragments |
| `PairingRun.LaterSessionRecognises` | libs/airplay/pairing_session.cpp:344-442 | a phone once paired is recognised by every later session on the same store and verifies against the key on file |
| `PairingRun.OtherProofRefused` | libs/airplay/pairing_session.cpp:174-210 | an M3 with any proof but the one called for leaves the session as it was and is answered with message 4 and the authentication error |
| `PairingRun.SetupNeedsTheSecret` | libs/airplay/pairing_session.cpp:140-291 | a controller with whatever password gets through pair-setup only with the accessory's own secret, or with two named messages that share a hash |
| `SecureChannel.EachEndOpensTheOther` | libs/airplay/receiver.cpp:596-626 | with those keys installed crosswise each end's open undoes the other's seal |
| `SecureChannel.RequestsArrive` | libs/airplay/receiver.cpp:548-626 | after an honest handshake that gets through, the requests the controller writes out and seals are the ones the accessory handles, in order, however they are cut into reads |
| `ChannelCrypto.Channel.Activate` | libs/airplay/channel_crypto.cpp:12-21 | keys are set and both counters start from zero |
| `ChannelCrypto.Channel.Open` | libs/airplay/channel_crypto.cpp:28-53 | the loop opens every whole frame up to the first that fails, each under the counter's own nonce (`CryptoLaws.NonceReads`) |
| `ChannelCrypto.Channel.Seal` | libs/airplay/channel_crypto.cpp:55-75 | the loop seals the text in chunks, each under a nonce of its own (`SealedIsWire`) |
| `CryptoLaws.NonceReads` | libs/airplay/crypto.cpp:463-471 | a counter is read back off its nonce, bytes 4 to 11, least significant first |
| `CryptoLaws.NoncesDiffer` | libs/airplay/crypto.cpp:463-471 | no two counters below 2^64 share a nonce |
| `CryptoLaws.LabelsApart` | libs/airplay/crypto.cpp:473-487 | no two labels of eight characters share a nonce |
| `ChannelCrypto.HeaderReads` | libs/airplay/channel_crypto.cpp:28-66 | the length in front of a frame is little-endian and reads back |
| `ChannelCrypto.SealedIsWire` | libs/airplay/channel_crypto.cpp:55-78 | what is sealed is the text in chunks of 1 to 1024 bytes, each behind its length and under the next nonce |
| `ControlSession.NoNonceTwice` | libs/airplay/channel_crypto.cpp:55-78 | over any number of seals no two frames share a nonce |
| `ChannelCrypto.OpenUndoesSeal` | libs/airplay/channel_crypto.cpp:28-75 | opening the peer's seal gives exactly the plaintext, for every text, counter and following bytes |
| `ChannelCrypto.OpenInTwo` | libs/airplay/channel_crypto.cpp:28-53 | opening in two calls is opening once, up to the first frame that fails |
| `ChannelCrypto.OpenSettles` | libs/airplay/channel_crypto.cpp:28-53 | opening stops only when no whole frame is left |
| `Rtsp.Trim` | libs/airplay/rtsp.cpp:22-33 | the loops trim spaces and tabs in front, and carriage returns too behind |
| `Rtsp.ParseHeaders` | libs/airplay/rtsp.cpp:109-126 | the loop collects the header lines, skipping those without a colon |
| `Rtsp.ParseRequest` | libs/airplay/rtsp.cpp:75-148 | the parser gives the specified judgement: incomplete, malformed or one request and its length; what it reads is said by `RtspText.PrintedReads` |
| `Rtsp.ParseStable` | libs/airplay/rtsp.cpp:75-148 | a judgement does not change when more bytes arrive |
| `Rtsp.PrefixIncomplete` | libs/airplay/rtsp.cpp:75-148 | every strict prefix of a request is incomplete |
| `Rtsp.WrapsExactlyPastTheLimit` | libs/airplay/rtsp.cpp:139-147 | the wrapped sum of header and body passes for complete exactly when the true one passes the size of the address space |
| `RtspText.PrintedReads` | libs/airplay/rtsp.cpp:75-148 | a request printed as text, with any bytes behind it, is read as that very request: method, URI, version, every header, and a body of the length announced in decimal |
| `RtspText.DigitsRead` | libs/airplay/rtsp.cpp:128-137 | a printed number is read as that number |
| `RtspText.CapitalsDoNotMatter` | libs/airplay/rtsp.cpp:14-21 | header names that differ in capitals only are one name |
| `ControlSession.Connection.ReadChunk` | libs/airplay/receiver.cpp:548-582 | one pass of the read loop is exactly the specified transition |
| `ControlSession.Connection.DrainRequests` | libs/airplay/receiver.cpp:566-582 | every whole request is taken off the front, in order |
| `ControlSession.ReceiveInTwo` | libs/airplay/receiver.cpp:548-582 | reading twice is reading once, for bytes that authenticate |
| `ControlSession.SegmentationIndependence` | libs/airplay/receiver.cpp:548-582 | every way of cutting the bytes into reads ends where one big read would, for bytes that authenticate |
| `ControlSession.HandlesExactlyTheRequests` | libs/airplay/receiver.cpp:548-582 | for well-formed requests sealed in order the loop handles exactly those, in order, with empty buffers and the counter advanced by the number of frames |
| `ControlSession.HandledIsPrefix` | libs/airplay/receiver.cpp:548-582 | when some frame fails, what is handled is a prefix of what one read of the authentic bytes would handle |
| `ControlSession.BadFrameLosesItsRead` | libs/airplay/receiver.cpp:548-582 | requests read together with a bad frame are lost, read before it they are handled |
| `ControlRequests.HandlesThoseRequests` | libs/airplay/receiver.cpp:548-582 | whatever requests are printed and sealed, and however their bytes are cut into reads, the loop handles those very requests in order and is left with nothing |
| `ControlRequests.RefusedTextCloses` | libs/airplay/receiver.cpp:566-582 | sealed text that is no request closes the connection; the requests before it are handled, nothing after it is |
| `ControlRequests.NoSpaceIsRefused` | libs/airplay/rtsp.cpp:90-104 | a request line with no space in it is no request |
| `ControlRequests.CuttingCanMatter` | libs/airplay/receiver.cpp:548-582 | primitives, a request and a forged frame for which the two cuttings differ |
| `EditorDocument.Document.BeginEdit` | dashboard/editor/editor_document.cpp:3-21 | opens an edit unless one of the same source is open; one of another source is committed first |
| `EditorDocument.Document.CommitEdit` | dashboard/editor/editor_document.cpp:23-49 | pushes what was there at the begin unless nothing changed, caps the stack and drops the redo side |
| `EditorDocument.Document.UndoEdit` | dashboard/editor/editor_document.cpp:51-63 | moves one snapshot across the stacks and returns what to restore |
| `EditorDocument.Document.RedoEdit` | dashboard/editor/editor_document.cpp:65-77 | the same the other way |
| `EditorDocument.Document.IsDirty` | dashboard/editor/editor_document.cpp:86-89 | dirty exactly when the document differs from the saved one |
| `EditorDocument.MovesFollowTimeline` | dashboard/editor/editor_document.cpp:51-77 | any mix of undo and redo only moves a cursor along a fixed timeline and shows the snapshot under it |
| `EditorDocument.UndoRedoRestores` | dashboard/editor/editor_document.cpp:51-77 | n undos then n redos restore document and history |
| `EditorDocument.HistoryStaysBounded` | dashboard/editor/editor_document.cpp:23-77 | over every session the two stacks together never pass the cap |
| `EditorDocument.UndoRevertsEdit` | dashboard/editor/editor_document.cpp:3-77 | one undo after a changing commit gives back the document at the first begin, one redo the result; a commit that changed nothing leaves no step |
| `EditorDocument.OtherSourceSplits` | dashboard/editor/editor_document.cpp:3-77 | two edits from different sources, however many changes each takes, come back as two undo steps, each to what was there when it began |
| `Canvas.Canvas.CaptureIsCapturable` | dashboard/editor/canvas.cpp:149-164 | every captured snapshot is one that a restore puts back exactly |
| `Canvas.Canvas.AddWidget` | dashboard/editor/canvas.cpp:443-503 | adds a default widget under the next derived name, selected; an unknown kind changes nothing |
| `Canvas.Canvas.RemoveFrame` | dashboard/editor/canvas.cpp:518-552 | removes that frame and no other, deletes it and drops its selection |
| `Canvas.Canvas.PlaceFrame` | dashboard/editor/canvas.cpp:692-731 | changes that frame's geometry in what is captured and nothing else, and rebuilds no child |
| `Canvas.Canvas.ConfigureFrame` | dashboard/include/editor/selection_frame.h:86-103 | changes that frame's settings in what is captured, or nothing when they are another kind's |
| `Canvas.Canvas.SetWindow` | dashboard/editor/properties_panel.cpp:1062-1082 | the name always, the colour and the size only if they are one |
| `Canvas.Canvas.LoadFromAppConfig` | dashboard/editor/canvas.cpp:43-145 | every old frame is deleted and the canvas captures as what the file says, unknown kinds skipped and mismatched configs defaulted |
| `Canvas.CapturedLoads` | dashboard/editor/canvas.cpp:61-145 | loading what was captured changes no widget: geometry and settings stay |
| `Canvas.StoredExactly` | dashboard/include/editor/selection_frame.h:116-127 | geometry is stored as it is exactly when it fits the file's 16 bits |
| `EditorNames.SavedReopens` | dashboard/editor/canvas.cpp:61-145 | a captured document opened again is the same document |
| `Canvas.Canvas.LiveFrames` | dashboard/editor/canvas.cpp:201-209 | frames by name, the first of each name |
| `Canvas.Canvas.RestoreFrame` | dashboard/editor/canvas.cpp:215-258 | one widget goes onto the live frame of its name and kind, rebuilt only if its config differs, else onto a new one |
| `Canvas.Canvas.RestoreByDiff` | dashboard/editor/canvas.cpp:201-292 | restoring by diff captures as the snapshot, reuses each frame of the same name and kind, rebuilds no child whose config is unchanged, and deletes exactly the unclaimed frames that are the first of their name: none is orphaned if and only if all names differed |
| `Canvas.Canvas.ApplyDocument` | dashboard/editor/canvas.cpp:166-292 | capture after apply is the snapshot; one without a name for each widget is rebuilt from scratch and every old frame deleted; the naming counter never goes back |
| `EditorNames.ApplyKeeps` | dashboard/editor/canvas.cpp:443-503 | every edit, undo and load keeps each name an explicit id or a derived one already given out |
| `EditorNames.NextNameIsFresh` | dashboard/editor/canvas.cpp:469-471 | at any point of any session the next derived name is in use on the canvas or in the history exactly where somebody chose it as an id |
| `EditorSession.Editor.UndoEdit` | dashboard/editor/editor_document.cpp:51-63 | on live widgets an undo leaves exactly the snapshot on the canvas and the timeline as it was: every snapshot either stack can hold is restorable |
| `EditorSession.Editor.RedoEdit` | dashboard/editor/editor_document.cpp:65-77 | the same the other way |
| `EditorSession.Editor.Travel` | dashboard/editor/canvas.cpp:308-316 | any mix of undo and redo leaves on the canvas exactly the snapshot under the cursor |
| `EditorSession.Editor.AddWidget` | dashboard/editor/canvas.cpp:443-503 | a palette drop is one transaction, and its derived name is in use nowhere on the canvas or in the history but as an explicit id |
| `EditorSession.Editor.RemoveWidget` | dashboard/editor/canvas.cpp:518-552 | a deletion is one transaction |
| `EditorSession.Editor.Drag` | dashboard/editor/canvas.cpp:637-744 | from press to release, however many moves, one transaction that ends where the last went, with no child rebuilt |
| `EditorSession.Editor.Configure` | dashboard/editor/properties_panel.cpp:846-872 | new settings are one transaction |
| `EditorSession.Editor.EditWindow` | dashboard/editor/properties_panel.cpp:1042-1082 | a change of the window's name, colour or size opens a window edit or joins the one that is open |
| `EditorSession.Editor.Load` | dashboard/editor/editor_window.cpp:229-234 | a file opened is on the canvas, clean, with the history starting afresh |
| `Nalu.FrameToAnnexB` | libs/airplay/nalu.cpp:155-195 | the walk writes each NAL unit behind a start code, up to the first malformed length |
| `Nalu.WrittenUnitsRead` | libs/airplay/nalu.cpp:155-195 | units written behind big-endian lengths are read back, each as it was |
| `Nalu.HeaderFields` | libs/airplay/nalu.cpp:260-268 | read field by field, a header marks a keyframe for type 5 of H.264 (section 7.4.1 of ITU-T H.264) and types 16 to 23 of H.265 |
| `Nalu.FrameContainsKeyframe` | libs/airplay/nalu.cpp:270-288 | true exactly when some unit's header marks a keyframe |
| `Nalu.AnnexBContainsKeyframe` | libs/airplay/nalu.cpp:290-317 | the walk over start codes, jumping past each, misses none |
| `Nalu.ConvertedKeyframe` | libs/airplay/nalu.cpp:177-195 | a converted frame reads as a keyframe exactly when a unit's header says so or a unit holds such a start code of its own |
| `Nalu.KeyframeSurvivesConversion` | libs/airplay/nalu.cpp:260-317 | detection survives conversion, both ways for units without a start code inside (section 7.4.1 of ITU-T H.264) |
| `Ntp.NothingOverflows` | libs/airplay/timing.cpp:60-106 | no intermediate value of either conversion leaves its 64-bit type |
| `Ntp.RoundTrip` | libs/airplay/timing.cpp:60-106 | nanoseconds to a timestamp and back never gains and loses one nanosecond exactly for times that are no multiple of 1 953 125 ns, below 2^32 seconds |
| `Ntp.StampRoundsDown` | libs/airplay/timing.cpp:102-105 | a stamp is the time in fraction units, rounded down |
| `Ntp.SignedExact` | libs/airplay/timing.cpp:69-76 | the wrapped signed difference is the true one exactly within 2^31 seconds |
| `Ntp.Write` | libs/airplay/timing.cpp:27-33 | the loop writes eight big-endian bytes and nothing else |
| `Ntp.Read` | libs/airplay/timing.cpp:35-43 | the loop reads eight big-endian bytes |
| `Timing.TimingSync.SendRequest` | libs/airplay/timing.cpp:179-198 | stamps the request under the current offset and remembers the stamp |
| `Timing.TimingSync.HandlePacket` | libs/airplay/timing.cpp:200-270 | answers a request, ignores a stale or duplicate answer, adopts the first and slews by the others |
| `Timing.HonestAnswerTaken` | libs/airplay/timing.cpp:179-262 | an honest answer to the request just sent is taken, unless that was stamped zero, and the phone's two stamps are read from it as sent |
| `Timing.OtherAnswerIgnored` | libs/airplay/timing.cpp:229-240 | an answer that names any other request changes nothing |
| `Timing.EveryRoundCounts` | libs/airplay/timing.cpp:179-270 | over any number of exchanges with an honest phone every answer is taken |
| `Timing.EveryRunPaired` | libs/airplay/timing.cpp:179-270 | over every run each answer used belongs to a request of its own, stamped with the very offset the answer corrects |
| `Timing.ErrorShrinks` | libs/airplay/timing.cpp:228-264 | one accepted answer leaves at most seven eighths of the error, a sixteenth of the path asymmetry and 1.03 ns |
| `Timing.AnswerSteers` | libs/airplay/timing.cpp:228-264 | an answer the handler takes moves the offset by exactly the exchange it completes |
| `Timing.ClockSettles` | libs/airplay/timing.cpp:179-270 | from a fresh clock, over every run of requests and packets, the error after the first answer and n more is at most the decayed first one, half the asymmetry and nine nanoseconds |
| `Timing.HonestPhoneSettles` | libs/airplay/timing.cpp:179-270 | so after a first exchange and n more with an honest phone the error is within that bound |
| `Timing.BoundTends` | libs/airplay/timing.cpp:242-264 | that bound exceeds half the asymmetry and nine nanoseconds by no more than the decayed first error |
| `Timing.AdoptedError` | libs/airplay/timing.cpp:245-262 | the adopted clock is behind by the way home, and less than a nanosecond more |
| `EventQueue.Queue.PushTouch` | libs/airplay/event_queue.cpp:7-29 | a move takes the place of a queued move; else the report is appended, or dropped and counted when the queue is full |
| `EventQueue.Queue.PushControl` | libs/airplay/event_queue.cpp:31-38 | appended, or dropped and counted |
| `EventQueue.Queue.Take` | libs/airplay/event_queue.cpp:53-96 | a pending keyframe first, else the oldest command, else the oldest touch report or how long it is held; only what is handed out is consumed |
| `EventQueue.MostUrgentFirst` | libs/airplay/event_queue.cpp:53-96 | what is handed out is never less urgent than anything that waits |
| `EventQueue.Queue.Clear` | libs/airplay/event_queue.cpp:40-51 | everything pending goes, the gate forgets, the drop count stays |
| `EventQueue.WaitIsEnough` | libs/airplay/event_queue.cpp:80-95 | the wait handed out is exactly how long the report is held |
| `EventQueue.TouchKeeps` | libs/airplay/event_queue.cpp:7-27 | a push loses at most the move it replaces |
| `EventQueue.EveryRunOrderly` | libs/airplay/event_queue.cpp:7-96 | over every run without a clear, sent and queued reports are the accepted ones in order less only moves overtaken by the next report; no two queued moves are neighbours; commands are first in, first out; touch is spaced by the gap |
| `EventQueue.EveryRunFromStart` | libs/airplay/event_queue.cpp:7-96 | the same from a fresh queue, with nothing assumed |
| `EventQueue.PressesSurvive` | libs/airplay/event_queue.cpp:7-96 | over every run without a clear the accepted presses and releases are, one for one and in order, those sent and those still queued |
| `SelectorText.SplitJoin` | libs/agent_control/locator.cpp:257-262 | a joined path splits into its segments |
| `SelectorText.SegmentReads` | libs/agent_control/locator.cpp:264-279 | a printed segment reads back as the class and index it was printed from |
| `Locator.Roots` | libs/agent_control/locator.cpp:65-117 | the roots that were set, less those destroyed, or every top-level window that is not transient |
| `Locator.LiveAre` | libs/agent_control/locator.cpp:74-84 | every root still alive is kept, in the order set and once for each time it was |
| `Locator.WindowsTaken` | libs/agent_control/locator.cpp:86-117 | every real window is listed, in the order found |
| `Locator.SiblingIndexOf` | libs/agent_control/locator.cpp:33-61 | the loop returns a widget's place among siblings of its class, or nothing when it is the only one or has no parent |
| `Locator.PathOf` | libs/agent_control/locator.cpp:146-172 | the walk up to the nearest window prints the specified path |
| `Locator.ResolvePath` | libs/agent_control/locator.cpp:255-337 | the narrowing loops give the specified answer: found, empty, no such widget or ambiguous |
| `Locator.MatchChildren` | libs/agent_control/locator.cpp:292-309 | matches under each candidate, in order |
| `Locator.ChildrenPick` | libs/agent_control/locator.cpp:31-61 | each child that is no window is picked by its segment exactly when widgets named after another class stand behind two or more of it |
| `Locator.WindowRoundTrips` | libs/agent_control/locator.cpp:146-337 | a window, with or without a parent, is found from its own path exactly when it is a root and its class and index pick it from the roots |
| `Locator.WindowResolvesIff` | libs/agent_control/locator.cpp:146-337 | everything in a window is found from its own path exactly when the window is and object names do no harm among any widget's children |
| `Locator.UnlistedWindowLost` | libs/agent_control/locator.cpp:164-167 | nothing in a window that is no root is ever found from its own path |
| `Locator.TransientWindowLost` | libs/agent_control/locator.cpp:86-117 | with the default roots, nothing in a popup, a tooltip or a splash screen is found |
| `Locator.OwnedBoxFound` | libs/agent_control/locator.cpp:146-337 | a message box that a window owns is found from its own path |
| `Locator.RootOrderDecides` | libs/agent_control/locator.cpp:311-325 | two boxes of one owner and the roots in the other order: the path of one leads to the other |
| `Locator.ParentlessRootsResolve` | libs/agent_control/locator.cpp:146-337 | with the widgets without a parent as roots, every widget is found again exactly when roots are told apart by class, no window lies inside another and object names do no harm |
| `Locator.EveryPathResolves` | libs/agent_control/locator.cpp:146-337 | for any roots, every widget under them is found again from its own path if and only if each one's window is a root, picked by its segment, with no object name in the way |

## Left out

- Sockets, threads as such, polling, files, logging and plist bodies; what arrives is any sequence of bytes or messages.
- C++ memory ordering: the ring's accesses are sequentially consistent.
- Floating-point rounding: positions and sample times are reals or integers, the doubles of the clock discipline exact.
- NaN and infinities in positions, samples and widget settings.
- Shutdown of the recorded source, its notifications, and a recording that changes under playback.
- The identity of shared pointers: a binding object is an entry under its handle, which outlives its place in the map.
- `Playback.Impl.EraseQueued`: the two erasing helpers of the source are one method here, and removal itself is one assignment to the queue.
- `RecordedConvergence.Converges`: the worker runs without an interruption between ticks; the number of rounds is what is bounded, not the time they take.
- Payload sizes and byte totals of raw windows, and the raw buffer's own staging, which repeat the arguments above.
- The live source, the time base, and density over a file, whose counts are spread over clipped buckets and so are not exact.
- The pairing store's file and failed writes to it: it is a map from identifier to key.
- The MFi authentication step and the info request; they add replies but no state the theorems speak of.
- `PairingSession.Session.HandlePairVerify`: `verified` is never reset, as in the source, so completeness is what is stated, not that it ends false after a failed second run.
- Failure of a primitive other than a tag or signature that does not check; allocation failures of big numbers.
- Building responses: `serializeResponse` and `setHeader` would add only easy members.
- `Rtsp.ParseRequest`: when the sum of header and body wraps, the source copies from past the body's end, which the language does not define; that is a judgement of its own here, at which the model closes the connection.
- Turning decoder configuration records into Annex B form, and choosing between their layouts.
- Painting, layout, mouse handling, dialogs and Qt's own clamping of sizes; a widget's child is present or not, and counted when built.
- `Canvas.Canvas.ApplyDocument`: which configs a kind can be built from is one predicate; the settings themselves are one number.
- `Decimate.DecimateMinMax`: the case of a position just outside the window through rounding cannot arise over reals.
- `CaptureBuffer.Buffer.Density`: a counter past 2^32 wraps as in the source; that the counters sum to what is visited is stated for windows of fewer messages.
- `Playback.Impl.RefillAllRaw`: recordings whose stamps step back in time; the source relies on the recorder's clock being monotone, and the streams bound are required to be so.
- `Timing.TimingSync.HandlePacket`: the offset is unbounded; the signed 64-bit sum it is kept in is not.
- `Locator.ResolvePath`: the candidate lists in error answers, and selectors with line breaks in them.
- The toolkit's list of top-level widgets: which ones and in what order is an argument of `Locator.Roots`.
- References by number, `#name` selectors and bare tokens, which search the forest directly.
