# Verified model of the cloud-storage server and its asynchronous logger

The repository is a small HTTP file store with its own logging library. This project models the four parts
of it that carry real obligations and proves, for all inputs and all runs, what they are for.

**The store** (`src/server`). `Service` models the request handlers, `DataManager` the table of stored files and
its persisted copy, `Files` and `Paths` the file operations. A state is a file map, a URL table and a list of
persisted records. `StoreRefinement` proves that over every run of uploads, downloads, listings and restarts the
server refines a plain map from URLs to contents: a download answers with what the latest successful upload of
that URL delivers. The difficulty is the scratch file that a download of a packed entry writes into the
low-storage directory, serves and removes; the proof rests on no table entry ever having that path, and says exactly
when a directory bars its way. `StoreClient` restates the result from outside, through base64 file names and
percent-encoded paths, and shows where it fails. `StoreRequests` says, request by request and from its text alone, what
is replied, written, recorded or left as it was.

**The base64 codec** (`src/server/base64.cpp`). `Base64` holds the loops with their specification, `Base64Laws` the
round trips, the exact set of strings the decoder accepts, and the exact image of the encoder; `LineBreaks` the PEM
and MIME forms. `UrlCodec` is percent-decoding.

**The asynchronous log** (`log_system/log_src`). `AsyncBuffer` is the growable buffer, over an array; `AsyncWorker`
the double-buffered consumer as a system of interleaved steps; `WorkerLaws` conservation and shutdown over every
interleaving; `LogFlush` the rolling file sink, `LogFiles` what its files hold after any sequence of batches, and
`AsyncLogger` the fan-out to the sinks of every kind, with the end-to-end statement from `Push` to disk.

**The thread pool** (`log_system/log_src/ThreadPool.cpp`). `ThreadPool` is the pool at the grain of single atomic
operations; `PoolInvariants` what each step keeps; `PoolLaws` counter accounting, size bounds and the fate of every
task over all runs; `PoolMinimum` when the configured minimum is kept and the lowest count for all limits;
`PoolShutdown` whether a stopped pool can be destroyed.

A class stands for each object that the source updates in place; its methods are proved against the functions the
lemmas speak of. In the concurrent parts each method is one step, and the lemmas quantify over all step sequences.

## What the proofs found

- A deep upload whose path mentions `low_storage` is stored raw (`src/server/Service.hpp:165` searches the whole
  path) but unpacked on download (`src/server/Service.hpp:308-311` looks for the low directory). The bytes come back
  only if unpacking leaves them alone: `StoreRefinement.DeliveredExactly` gives the exact condition, and
  `StoreClient.PackedBodyComesBackUnpacked` an upload that fails it.
- A directory in the low-storage directory hides every deep entry of its name: unpacking fails unnoticed
  (`src/server/Service.hpp:321`), the directory is opened instead, and the reply is 200 without the content
  (`StoreClient.DirectoryHidesDeepEntry`). The server never makes such a directory, so one that was not there at
  the first start never will be (`StoreRefinement.BlockedFromStart`).
- Files are opened by C strings, the table is keyed by whole names. So a low upload whose decoded name holds a NUL byte
  shares its file with another entry, which then loses its content (`StoreClient.TwoLowUploads`,
  `StoreClient.NulNameLosesContent`); and a mere download of a deep entry with such a name removes the file of the low
  entry with the name up to the NUL (`StoreClient.DeepDownloadTakesLowFile`, `StoreClient.ScratchTakes`).
  `StoreRefinement.DownloadKeepsEntries` and `StoreRefinement.UploadRefines` say exactly when a request leaves every
  other entry alone; without NULs it always does (`StoreRefinement.NulFreeRunIsGood`).
- A restart succeeds exactly when every number fits a signed 32-bit int, and recovers the table exactly when moreover
  no string holds a NUL: `StoreRefinement.RestartExact`. One upload with a later time stops the server from coming up
  again: `StoreClient.LateTimeStopsTheServer`.
- `NewStorageInfo` stores the access time as `mtime_` and the modification time as `atime_`
  (`src/server/DataManager.hpp:25-26`): `StoreRequests.UploadedEntry`.
- A download of an unknown url is answered with 200: its empty path leads to the low directory itself
  (`StoreRequests.UnknownUrl`).
- The names of log files carry the hour, minute and second one higher than the clock has them
  (`log_system/log_src/LogFlush.hpp:135-137`): `LogFlush.FileNameSays`.
- The consumer waits on its own, always empty, buffer (`log_system/log_src/AsyncWorker.hpp:50`). As written nothing
  is delivered before `Stop`, and there is one hand-over after it (`WorkerLaws.OneHandOver`). In ASYNC_SAFE mode
  shutdown is then complete (`WorkerLaws.ShutdownComplete`). In ASYNC_UNSAFE mode it is if every `Push` is over
  before `Stop` (`WorkerLaws.CompleteWhenQuiet`), and exactly if nothing but empty messages is written after the
  hand-over (`WorkerLaws.ShutdownExact`); otherwise a message can be accepted after the consumer has gone
  (`WorkerLaws.UnsafeModeAcceptsTooLate`). Waiting on the producers' buffer instead would break ASYNC_SAFE mode too:
  `WorkerLaws.ProducerGuardStrandsData`.
- The consumer's unlocked look at the producers' buffer (`log_system/log_src/AsyncWorker.hpp:59`) is free of races
  exactly in ASYNC_SAFE mode: `WorkerLaws.EmptyTestIsRaceFree`.
- The thread pool keeps `m_curThread >= m_minThread` in every run exactly if it can never grow
  (`PoolMinimum.MinimumKept`); otherwise the lowest count there is, for all limits, is the larger of `min - 3` and -1
  (`PoolMinimum.LowestCount`).
- The manager's wait for an id (`log_system/log_src/ThreadPool.cpp:63`) does not look at `m_stop`. A pool that can grow
  can be stopped so that the destructor never gets past the manager, and one that cannot grow never hangs there
  (`PoolShutdown.ShutdownCanHang`); `PoolShutdown.ManagerFinishes` says in which states it has come to that.
- After `m_stop` workers leave without decrementing `m_curThread`; `PoolLaws.CounterAccounting` counts them.
- `UrlDecode` accepts the letters `G` to `Z`, in either case, as digits 16 to 35: `UrlCodec.DigitValues`.

## Model

| member | source | states |
|---|---|---|
| Base64.Base64Encode | src/server/base64.cpp:111-160 | The encoding loop with its 32-bit counter, for every input on which it ends, equals the specification `Encode`; the counter never wraps |
| Base64.EncodeGroup | src/server/base64.cpp:134-153 | One turn of the loop writes the four characters of the three, two or one bytes at `pos` |
| Base64.DecodeLoop | src/server/base64.cpp:163-241 | The decoding loop equals `Decode`, including which of the two exceptions leaves it and that nothing is returned then |
| Base64.DecodeQuad | src/server/base64.cpp:207-235 | One turn reads the second character first, then the first, third and fourth, with a pad in third place ending the group |
| Base64Laws.Alphabets | src/server/base64.cpp:44-53 | The two alphabets, by their characters and their order |
| Base64Laws.Pads | src/server/base64.cpp:115 | `=` and `.` pad, and nothing else |
| Base64Laws.KnownCharacters | src/server/base64.cpp:55-71 | The decoder knows the characters of both alphabets and no others |
| Base64Laws.SextetsAreTheGroup | src/server/base64.cpp:134-150 | The four positions written are the 24 bits of the group, six at a time; missing bytes count as zero |
| Base64Laws.OctetsAreTheGroup | src/server/base64.cpp:212-233 | The three bytes read are the 24 bits of the four positions, eight at a time |
| Base64Laws.DecodedQuad | src/server/base64.cpp:207-235 | What a quad decodes to, unused bits zero or not: one byte less than it has positions before a pad |
| Base64Laws.WhichException | src/server/base64.cpp:207-233 | Which of the two exceptions leaves the decoder, for every string it refuses |
| Base64Laws.CharRoundTrip | src/server/base64.cpp:44-71 | `pos_of_char` inverts both alphabets |
| Base64Laws.BitsRoundTrip | src/server/base64.cpp:134-150 | The six-bit pieces cut from one, two or three bytes reassemble to those bytes |
| Base64Laws.RoundTrip | src/server/base64.cpp:111-241 | Decoding an encoding returns the bytes, for every byte string and both alphabets |
| Base64Laws.StrippedRoundTrip | src/server/base64.cpp:214-230 | The same after all trailing padding was removed |
| Base64Laws.DecodeConcat | src/server/base64.cpp:193-238 | Decoding distributes over concatenation after any multiple of four characters, padding or not, errors included |
| Base64Laws.ConcatenatedEncodings | src/server/base64.cpp:193-238 | Two encodings in a row, each in either alphabet, decode to the two byte strings in a row |
| Base64Laws.DecodeAccepts | src/server/base64.cpp:207-235 | Exactly the strings the decoder accepts, by length and character position, stated without decoding |
| Base64Laws.EncodedLength | src/server/base64.cpp:113 | The encoding has `(n+2)/3*4` characters |
| Base64Laws.EncodedPadding | src/server/base64.cpp:136-153 | Pads stand only at the end, as many as bytes are missing to a multiple of three; all else is in the chosen alphabet |
| Base64Laws.DecodeEncode | src/server/base64.cpp:193-238 | On canonical strings encoding undoes decoding |
| Base64Laws.EncodedIsCanonical | src/server/base64.cpp:131-156 | Every encoding is canonical (section 3.5 of RFC 4648) |
| Base64Laws.CanonicalIsImage | src/server/base64.cpp:111-160 | The image of the encoder is exactly the canonical strings |
| Base64Laws.EncodeInjective | src/server/base64.cpp:111-160 | Different byte strings have different encodings |
| Base64Laws.EncoderLoopEnds | src/server/base64.cpp:131-156 | The 32-bit counter ever reaches the length exactly for at most 2^32 - 1 bytes, and does so without wrapping |
| LineBreaks.InsertLinebreaks | src/server/base64.cpp:73-89 | The inserting loop ends for every distance above zero and equals `Wrap` |
| LineBreaks.EraseNewlines | src/server/base64.cpp:173-175 | The erase and remove pair drops exactly the line feeds |
| LineBreaks.Base64Decode | src/server/base64.cpp:163-178 | Decoding with or without line-break removal |
| LineBreaks.EncodeWithLineBreaks | src/server/base64.cpp:91-104 | The PEM and MIME encoders wrap the encoding, and decoding with line-break removal returns the bytes |
| LineBreaks.EncodePem | src/server/base64.cpp:96-99 | Lines of 64 |
| LineBreaks.EncodeMime | src/server/base64.cpp:101-104 | Lines of 76 |
| LineBreaks.WrapLength | src/server/base64.cpp:81-86 | `n` characters become `n + (n-1)/d` |
| LineBreaks.WrapAt | src/server/base64.cpp:81-86 | Every character of the wrapped string by line and column: lines of exactly `d`, a line feed after each but the last |
| LineBreaks.RemoveWrap | src/server/base64.cpp:171-178 | Removing line feeds undoes wrapping up to line feeds already there |
| LineBreaks.WrappedRoundTrip | src/server/base64.cpp:91-104 | Decoding the wrapped form, for any width and either alphabet, returns the bytes |
| UrlCodec.UrlDecode | src/server/Util.hpp:73-98 | The decoding loop equals `Decoded`, with the two assertions as errors |
| UrlCodec.DigitValues | src/server/Util.hpp:43-54 | `0` is 0, `A` and `a` are 10, each next digit or letter one more, both cases agree, and nothing else is a digit |
| UrlCodec.PairValues | src/server/Util.hpp:86-91 | The first digit of a pair counts sixteen, the second one, in eight bits |
| UrlCodec.ToHexWrites | src/server/Util.hpp:29-31 | The digit of that value, in upper case |
| UrlCodec.DecodesExactly | src/server/Util.hpp:82-95 | No assertion fails exactly if every percent sign reached has two digits after it |
| UrlCodec.WhichAssertion | src/server/Util.hpp:82-88 | Which assertion fails at a percent sign |
| UrlCodec.EscapeRoundTrip | src/server/Util.hpp:29-98 | For every choice of bytes to escape and of the case of each digit, decoding restores the string exactly if every percent sign was escaped |
| UrlCodec.EscapedLength | src/server/Util.hpp:82-95 | Each escape costs two bytes, which decoding gives back |
| UrlCodec.DecodedIsNoLonger | src/server/Util.hpp:82-95 | Decoding never gives more bytes than were escaped, so a bare percent sign loses some |
| Paths.SplitPath | src/server/Util.hpp:164-169 | `find_last_of` cuts a path into directory and file name |
| Paths.CStrCuts | src/server/Util.hpp:116 | A system call sees a path up to its first NUL |
| Paths.FileNameIn | src/server/Util.hpp:164-169 | A plain name placed in a directory is the file name of the result |
| Paths.ContainsSplit | src/server/Service.hpp:165 | A slash-free text occurs in directory plus name exactly if it occurs in one of the two |
| Files.Disk.SetContent | src/server/Util.hpp:228-244 | Writes the whole file, or fails and changes nothing when the path does not lead into an existing directory or names a directory |
| Files.Disk.GetContent | src/server/Util.hpp:217-219 | The content of the file, or failure when it is missing |
| Files.Disk.Compress | src/server/Util.hpp:254-270 | Writes the packed content; fails and changes nothing when packing or opening fails |
| Files.Disk.UnCompress | src/server/Util.hpp:276-296 | Writes the unpacked content of one file to another |
| Files.Disk.CreateDirectory | src/server/Util.hpp:302-306 | Makes the directory and those above it unless something of that name exists; throws when a file stands in the way |
| Files.Disk.Remove | src/server/Service.hpp:394 | Unlinks a file, removes a directory only if it is empty |
| DataManager.Manager.Start | src/server/DataManager.hpp:66-75 | A new manager holds what was persisted, or the number conversion threw |
| DataManager.Manager.InitLoad | src/server/DataManager.hpp:95-127 | Loads record after record and persists nothing meanwhile; a number that does not fit aborts |
| DataManager.Manager.Insert | src/server/DataManager.hpp:184-202 | Binds the url and, once persistence is on, leaves the file a save of the new table |
| DataManager.Manager.Update | src/server/DataManager.hpp:210-228 | Binds the url and always persists |
| DataManager.Manager.Storage | src/server/DataManager.hpp:139-176 | The file becomes a save of the table, in whatever order the hash map is walked |
| DataManager.Manager.GetAll | src/server/DataManager.hpp:284-294 | Each entry once |
| DataManager.Manager.GetOneByURL | src/server/DataManager.hpp:236-250 | The entry of that url, or none |
| DataManager.Manager.GetOneByStoragePath | src/server/DataManager.hpp:260-277 | An entry with that path, or the proof that there is none |
| DataManager.RecordFields | src/server/DataManager.hpp:155-160 | Each field of an entry goes under its own name, the size as a signed number of 64 bits |
| DataManager.EntryFields | src/server/DataManager.hpp:118-123 | ... and comes back from there, exactly if the three numbers fit 32 bits |
| DataManager.LoadedExactly | src/server/DataManager.hpp:116-125 | Loading succeeds exactly if every record can be read |
| DataManager.RecordRoundTrip | src/server/DataManager.hpp:118-160 | One entry survives writing and reading exactly if its numbers fit an int and its strings hold no NUL |
| DataManager.LoadedLastWriter | src/server/DataManager.hpp:116-125 | Each url ends up with its last record, and only recorded urls are loaded |
| DataManager.LoadThrows | src/server/DataManager.hpp:95-176 | For every walk of the hash map, loading what was stored throws exactly if some number does not fit |
| DataManager.SaveLoadRoundTrip | src/server/DataManager.hpp:95-176 | For every walk of the hash map, loading what was stored rebuilds the table exactly if every entry survives |
| Service.Server.GenHandler | src/server/Service.hpp:79-100 | One request is one step of the model: routing by the decoded path, in this order of tests |
| Service.Server.HandleUpload | src/server/Service.hpp:102-194 | Replies, file written, entry inserted and records persisted for every kind of upload, refused ones included |
| Service.Server.StoreUpload | src/server/Service.hpp:157-193 | Raw or packed by the text of the path; on failure no file, no entry, reply 500 |
| Service.Server.HandleDownload | src/server/Service.hpp:295-396 | Replies and files after a download of a known or unknown url |
| Service.Server.UnpackEntry | src/server/Service.hpp:311-323 | The scratch copy in the low directory, if it can be written there; whether it was is not reported |
| Service.Server.SendFile | src/server/Service.hpp:326-395 | Replies in order when the file is missing, else its bytes; the scratch copy is removed |
| Service.Server.RestartServer | src/server/DataManager.hpp:66-75 | A new process recovers the persisted table, or dies on a number that does not fit |
| StoreRequests.OtherRequests | src/server/Service.hpp:79-99 | By the decoded text: exactly `/` is listed, any other that is no upload or download gets 404, neither changes anything; an undecodable path aborts |
| StoreRequests.DownloadRequests | src/server/Service.hpp:87-88 | Any text with `/download/` in it is a download of the entry under that text |
| StoreRequests.RefusedUploads | src/server/Service.hpp:114-150 | An empty body, an undecodable name or an unknown type, in this order, is turned away with 400, an exception or 400, without a trace |
| StoreRequests.OtherUploads | src/server/Service.hpp:152-193 | Any other upload succeeds, or gets 500 or the exception of a directory that cannot be made, and then changes no file and no entry |
| StoreRequests.UploadedFile | src/server/Service.hpp:139-185 | The one file a successful upload writes: in the directory of its type, the body itself if the path mentions `low_storage`, else the packed body |
| StoreRequests.UploadedEntry | src/server/DataManager.hpp:15-36 | The entry it makes, field by field, the times exchanged and the size that of the file written; the table is persisted with it |
| StoreRequests.UnknownUrl | src/server/Service.hpp:298-395 | A download of an unknown url gets 200 without content and changes nothing but the low directory, which is made, or removed if empty |
| StoreRequests.MissingFile | src/server/Service.hpp:326-364 | The replies to a download whose low file is gone: 404, after a 500 or a 400 if the path calls for one |
| StoreRequests.MissingDeepFile | src/server/Service.hpp:306-364 | The same for a deep entry |
| StoreRefinement.DownloadFiles | src/server/Service.hpp:306-395 | For any path, NUL or not: a file there before a download keeps its content exactly if it is not the scratch file of a deep one |
| StoreRefinement.ScratchIsFree | src/server/Service.hpp:315-322 | For paths without NUL, the low file that a deep download overwrites and removes is never the file of an entry with another url, nor its own |
| StoreRefinement.DownloadKeepsEntries | src/server/Service.hpp:306-395 | A download leaves every entry as it is exactly if its scratch file is no entry's file; one of an unknown url always does |
| StoreRefinement.WriteKeepsSound | src/server/Service.hpp:157-185 | No file the server writes gets in the way of a storage directory |
| StoreRefinement.UnpackedScratch | src/server/Service.hpp:311-323 | The scratch copy is written exactly if its name, up to any NUL, is no directory's, and changes no other file |
| StoreRefinement.DownloadReplies | src/server/Service.hpp:295-396 | The reply to a download of a known url: the map's content, or a directory's descriptor exactly if one has the scratch copy's name |
| StoreRefinement.DownloadRefines | src/server/Service.hpp:295-396 | A download leaves the map as it is exactly if it is harmless in that sense, and of a known url replies with its content exactly if no directory has the scratch copy's name |
| StoreRefinement.UploadWrites | src/server/Service.hpp:157-190 | A successful upload changes one file and inserts one entry, for exactly its target |
| StoreRefinement.UploadRefines | src/server/Service.hpp:102-194 | For any name, an upload is a step of the map exactly if no other entry then reads something else from the file it wrote; one that fails changes nothing |
| StoreRefinement.DeliveredExactly | src/server/Service.hpp:163-185 | The client gets its bytes back exactly under a condition on storage type and name |
| StoreRefinement.RestartExact | src/server/DataManager.hpp:95-127 | A restart succeeds exactly if every number fits, and gives the same table exactly if every entry survives the persisted form |
| StoreRefinement.NulFreeIsAdmissible | src/server/Service.hpp:129-166 | Between entries without NUL in their paths, every upload of a name without NUL, every download and every restart is admissible |
| StoreRefinement.NulFreeRunIsGood | src/server/Service.hpp:129-166 | So is every operation of a run whose uploads have no NUL in their names |
| StoreRefinement.StepRefines | src/server/Service.hpp:79-100 | Every admissible request and restart is a step of the plain map, with the entries where the names put them |
| StoreRefinement.StepReplies | src/server/Service.hpp:295-396 | The reply to a download of a known url is the map's content, exactly if it is not barred by a directory |
| StoreRefinement.StepMakesNoDirectory | src/server/Service.hpp:152-154 | No request makes a directory other than the two storage directories and those above them |
| StoreRefinement.BlockedFromStart | src/server/Service.hpp:319-322 | A directory that bars a scratch copy was there before the first request |
| StoreRefinement.RunInvariant | src/server/Service.hpp:79-100 | The server state represents the map after every prefix of every run |
| StoreRefinement.StepExists | src/server/Service.hpp:79-100 | Every request and restart has an outcome in every state |
| StoreRefinement.RunExists | src/server/Service.hpp:79-100 | Every sequence of requests and restarts has a run from every first start, so the statements about runs are not empty |
| StoreRefinement.DownloadReturnsLatestUpload | src/server/Service.hpp:102-396 | Over every run of admissible operations, a download returns what the latest successful upload of its url delivers, whatever came between, exactly if no directory has the scratch copy's name; so always if there was none at the start |
| StoreClient.ShippedConfigIsValid | src/server/Storage.conf:4-6 | The shipped configuration meets the assumptions of the refinement |
| StoreClient.DownloadRoute | src/server/Service.hpp:80-88 | Any escaping of prefix plus name that covers percent signs, with digits in either case, is routed to the entry of that name |
| StoreClient.UploadSucceeds | src/server/Service.hpp:116-193 | An upload under a slash-free name succeeds exactly if the name up to any NUL is not empty, "." or "..", no directory has it, and there is a body that can be packed if it must be |
| StoreClient.UploadThenDownload | src/server/Service.hpp:102-396 | Upload then download, through both text encodings, returns the bytes exactly under a condition on the name, the body and the directories before the upload |
| StoreClient.LateTimeStopsTheServer | src/server/DataManager.hpp:118-122 | From a first start, one plain upload with a time that does not fit, and the restart throws |
| StoreClient.PackedBodyComesBackUnpacked | src/server/Service.hpp:165-166 | A deep upload of packed data under a name that mentions low storage comes back unpacked |
| StoreClient.DirectoryHidesDeepEntry | src/server/Service.hpp:315-394 | From a first start with a directory of that name in the low one, a deep upload succeeds and its download does not deliver it |
| StoreClient.TwoLowUploads | src/server/Service.hpp:130-166 | Of two low uploads under different names the first keeps its content exactly if the names differ before any NUL, or the bodies are equal |
| StoreClient.NulNameLosesContent | src/server/Service.hpp:130-166 | So an upload named up to the NUL overwrites the content of one named beyond it |
| StoreClient.ScratchTakes | src/server/Service.hpp:315-394 | A low file survives the download of a deep entry exactly if the names differ before any NUL |
| StoreClient.DeepDownloadTakesLowFile | src/server/Service.hpp:315-394 | Deep upload, low upload under another name, download of the first: the second can still be downloaded exactly if the names differ before any NUL |
| AsyncBuffer.Buffer.constructor | log_system/log_src/AsyncBuffer.hpp:10-12 | An empty buffer of the configured size |
| AsyncBuffer.Buffer.Push | log_system/log_src/AsyncBuffer.hpp:19-23 | Grows at most once, then copies the bytes to the write position |
| AsyncBuffer.Buffer.ToBeEnough | log_system/log_src/AsyncBuffer.hpp:79-91 | Doubles below the threshold, else adds the linear step; contents and positions stay |
| AsyncBuffer.Buffer.Swap | log_system/log_src/AsyncBuffer.hpp:47-51 | The two buffers exchange vectors and positions |
| AsyncBuffer.Buffer.Reset | log_system/log_src/AsyncBuffer.hpp:68-72 | Positions back to zero, vector kept |
| AsyncBuffer.PushAppends | log_system/log_src/AsyncBuffer.hpp:19-23 | A push keeps the positions in order and puts its bytes after the unread ones |
| AsyncBuffer.PushInBounds | log_system/log_src/AsyncBuffer.hpp:79-91 | A push with room is in bounds; one that grows is, exactly up to one doubling or one linear step |
| AsyncBuffer.GrowthBoundOverRuns | log_system/log_src/AsyncBuffer.hpp:79-91 | In every run a vector stays within twice its high-water mark or that mark plus one step, and below the threshold growing copies exactly the growth |
| AsyncWorker.AsyncWorker.EnterPush | log_system/log_src/AsyncWorker.hpp:26-36 | Waits, turns away after `stop_`, or admits the message, in either mode |
| AsyncWorker.AsyncWorker.WritePush | log_system/log_src/AsyncWorker.hpp:38-40 | Writes the message under the lock |
| AsyncWorker.AsyncWorker.SwapBuffers | log_system/log_src/AsyncWorker.hpp:52-56 | The hand-over under the lock |
| AsyncWorker.AsyncWorker.Callback | log_system/log_src/AsyncWorker.hpp:57 | The callback gets exactly the unread bytes |
| WorkerLaws.Conservation | log_system/log_src/AsyncWorker.hpp:26-62 | For any mode, wake condition and interleaving: delivered, in hand and buffered bytes in a row are the messages sent, in lock order |
| WorkerLaws.EverySentIsAccepted | log_system/log_src/AsyncWorker.hpp:26-40 | The accepted messages are those that producers got past the tests and wrote, read off the steps alone |
| WorkerLaws.BatchesAreWholeMessages | log_system/log_src/AsyncWorker.hpp:52-58 | Every batch is a run of whole, consecutive messages from the first one on |
| WorkerLaws.NothingDeliveredBeforeStop | log_system/log_src/AsyncWorker.hpp:46-57 | As written, in either mode, no callback happens before `stop_` |
| WorkerLaws.OneHandOver | log_system/log_src/AsyncWorker.hpp:46-60 | As written, in either mode, there is at most one swap, and the consumer is past it exactly if it happened |
| WorkerLaws.SafeWritesInBounds | log_system/log_src/AsyncWorker.hpp:30-38 | In ASYNC_SAFE mode no admitted `Push` writes out of bounds |
| WorkerLaws.EmptyTestIsRaceFree | log_system/log_src/AsyncWorker.hpp:59 | As written, the unlocked test of the producers' buffer never meets a producer mid-write in any run, exactly in ASYNC_SAFE mode |
| WorkerLaws.ShutdownComplete | log_system/log_src/AsyncWorker.hpp:46-60 | In ASYNC_SAFE mode, when the consumer returns, everything accepted was delivered exactly if its loop was entered or nothing was sent |
| WorkerLaws.ShutdownExact | log_system/log_src/AsyncWorker.hpp:26-60 | In either mode, a returned consumer that entered its loop delivered everything exactly if nothing but empty messages was written after its hand-over |
| WorkerLaws.CompleteWhenQuiet | log_system/log_src/AsyncWorker.hpp:21-60 | In either mode, if every `Push` is over before `Stop`, a consumer that entered its loop returns only with everything delivered |
| WorkerLaws.ClosedAfterReturn | log_system/log_src/AsyncWorker.hpp:26-36 | In ASYNC_SAFE mode, after that return no step changes anything: the buffer stays empty and nothing more is accepted |
| WorkerLaws.LeftBehind | log_system/log_src/AsyncWorker.hpp:26-60 | For any mode and wake condition, a returned consumer has delivered everything exactly if every message that is not empty was followed by a hand-over |
| WorkerLaws.ProducerGuardStrandsData | log_system/log_src/AsyncWorker.hpp:46-51 | With a wake condition on the producers' data there is a run that strands an accepted message |
| WorkerLaws.UnsafeModeAcceptsTooLate | log_system/log_src/AsyncWorker.hpp:30-38 | In ASYNC_UNSAFE mode there is a run that accepts a message after the consumer has gone |
| LogFlush.RollFileFlush.CreateLogFileName | log_system/log_src/LogFlush.hpp:127-140 | The name from base, date, time and counter; the counter advances |
| LogFlush.RollFileFlush.InitLogFile | log_system/log_src/LogFlush.hpp:112-126 | Opens the next file, in append mode, when none is open or the open one is full |
| LogFlush.RollFileFlush.Flush | log_system/log_src/LogFlush.hpp:81-88 | The batch goes whole to the end of the open file and counts towards its size |
| LogFlush.StreamFlush.Flush | log_system/log_src/LogFlush.hpp:18-57 | Standard output and the single file get the batch at their end; a file that could not be opened gets nothing |
| LogFlush.FileNameSays | log_system/log_src/LogFlush.hpp:127-140 | The name is the base name, the numerals of the date and time as the source shifts them, the last dash, the numeral of the counter, and `.log` |
| LogFlush.DecimalSpells | log_system/log_src/LogFlush.hpp:132-138 | The numeral read from left to right in base ten is the number, without a leading zero |
| LogFlush.DecimalInjective | log_system/log_src/LogFlush.hpp:137-138 | Decimal numerals of different numbers differ |
| LogFlush.LogFileNamesDiffer | log_system/log_src/LogFlush.hpp:127-140 | Names made under different counters differ, whatever the clock says |
| LogFiles.RolledFilesHoldTheLog | log_system/log_src/LogFlush.hpp:81-140 | For any batches the files, all differently named, hold in creation order exactly the log, for any maximum size; every closed file is full, and no file took another batch once it was; no other file changed |
| LogFiles.RollingIsUnique | log_system/log_src/LogFlush.hpp:112-125 | There is only one such division of the batches over files |
| LogFiles.AcceptedMessagesAreDelivered | log_system/log_src/AsyncWorker.hpp:26-60 | After the consumer has returned, the batches are the accepted messages exactly if each but the empty ones was followed by a hand-over; so after an orderly stop in either mode |
| LogFiles.AcceptedMessagesReachTheFiles | log_system/log_src/AsyncLogger.hpp:113-121 | The same of the files of a rolling sink that got those batches |
| AsyncLogger.AsyncLogger.RealFlush | log_system/log_src/AsyncLogger.hpp:114-121 | Every sink, of whatever kind, gets the whole batch once, after all earlier ones |
| AsyncLogger.AsyncLogger.Deliver | log_system/log_src/AsyncWorker.hpp:57 | The worker's callback is `RealFlush`: the sinks' batches are those of the worker, after it as before |
| AsyncLogger.AsyncLogger.Consume | log_system/log_src/AsyncWorker.hpp:45-62 | Every step of the consumer keeps that |
| AsyncLogger.AsyncLogger.Flush | log_system/log_src/AsyncLogger.hpp:113 | A producer's `Push` up to its write keeps that |
| AsyncLogger.EverySinkHoldsTheLog | log_system/log_src/AsyncLogger.hpp:113-121 | From `Push` to disk: every sink, of whatever kind, of a logger whose consumer has returned holds the accepted messages, exactly if each but the empty ones was followed by a hand-over; so after an orderly stop in either mode |
| ThreadPool.ThreadPool.constructor | log_system/log_src/ThreadPool.cpp:8-17 | `min` workers, all listed, and both counters at `min` |
| ThreadPool.ThreadPool.AddTask | log_system/log_src/ThreadPool.cpp:42-48 | The task always goes to the end of the queue, and nothing else changes |
| ThreadPool.ThreadPool.Worker | log_system/log_src/ThreadPool.cpp:92-136 | Each next step of a worker, by its position |
| ThreadPool.ThreadPool.TakeTask | log_system/log_src/ThreadPool.cpp:119-133 | Takes the first task if there is one and lets go of the lock; an empty function is dropped |
| ThreadPool.ThreadPool.Manager | log_system/log_src/ThreadPool.cpp:50-90 | Each next step of the manager |
| ThreadPool.ThreadPool.EraseRetired | log_system/log_src/ThreadPool.cpp:67-79 | Exactly the listed threads leave the container and the list is emptied |
| PoolInvariants.StepInvariant | log_system/log_src/ThreadPool.cpp:50-136 | Every step of every thread keeps all invariants together |
| PoolInvariants.LateStep | log_system/log_src/ThreadPool.cpp:96-123 | Once `m_stop` is set, the tasks taken are those the workers have counted |
| PoolLaws.CounterAccounting | log_system/log_src/ThreadPool.cpp:83-136 | In every reachable state: `m_curThread` is the workers running and those that left after `m_stop`, and `m_idleThread` those not busy, up to the exact corrections for updates in flight; `m_exitThread` is 0, 1 or 2 |
| PoolLaws.NoneLeftBeforeStop | log_system/log_src/ThreadPool.cpp:96-136 | Until `m_stop` is set no worker has left but by retiring |
| PoolLaws.SettledCounters | log_system/log_src/ThreadPool.cpp:83-136 | With nobody mid-update, `idle` is `cur` less the busy workers and, for `min` not negative, lies between 0 and `cur`; `cur` is the running workers exactly if none has left after `m_stop` |
| PoolLaws.NeverTooMany | log_system/log_src/ThreadPool.cpp:80-86 | `m_curThread` stays within the larger limit; for `min` not negative, the threads really running exceed that limit by one at most |
| PoolLaws.PromptFloor | log_system/log_src/ThreadPool.cpp:53-65 | The tokens out leave `min - 1` less whatever retires between the manager's sample and its store |
| PoolLaws.NeverTooFewWhenPrompt | log_system/log_src/ThreadPool.cpp:53-65 | With sample and store in one piece, `cur - exit` stays at `min - 1` or more |
| PoolLaws.NeverTooFew | log_system/log_src/ThreadPool.cpp:105-115 | At the grain of atomic operations, `cur - exit`, a retirement in flight counted once, stays at `min - 3` or more |
| PoolLaws.EveryJobIsSubmitted | log_system/log_src/ThreadPool.cpp:42-48 | What was submitted is what `addTask` was given, in the order of the calls |
| PoolLaws.WorkerSteps | log_system/log_src/ThreadPool.cpp:92-133 | Where each step takes a worker, stopped or not |
| PoolLaws.WorkerStepsAreSmall | log_system/log_src/ThreadPool.cpp:92-133 | It leaves everybody else, and what it is not about, alone |
| PoolLaws.ManagerSteps | log_system/log_src/ThreadPool.cpp:50-90 | Where each step takes the manager |
| PoolLaws.ManagerDecides | log_system/log_src/ThreadPool.cpp:56-81 | When the manager retires, starts a worker, or does neither |
| PoolLaws.QueueIsServed | log_system/log_src/ThreadPool.cpp:99-126 | A worker with the lock takes the first task there is, stopped or not; it waits only if there is none |
| PoolLaws.TaskConservation | log_system/log_src/ThreadPool.cpp:42-132 | Tasks leave in the order of the calls to `addTask`; each non-empty one is queued, held or completed as often as it was given; empty ones never run |
| PoolLaws.OneTaskOnePlace | log_system/log_src/ThreadPool.hpp:27-42 | A task given once is in exactly one place and never runs twice |
| PoolLaws.LeftInTheQueue | log_system/log_src/ThreadPool.cpp:96-133 | When all workers have returned, the tasks never run are exactly those still queued |
| PoolLaws.AtMostOneLateTaskEach | log_system/log_src/ThreadPool.cpp:96-123 | After `m_stop` each worker takes at most one more task |
| PoolLaws.CleanupJoinsTheRetired | log_system/log_src/ThreadPool.cpp:66-79 | The manager joins only threads that have returned, each once, and keeps all others listed |
| PoolMinimum.MinimumKept | log_system/log_src/ThreadPool.cpp:53-86 | `m_curThread >= m_minThread` holds in all runs exactly if `min` is negative or `max` is not above `min` |
| PoolMinimum.FallsBelow | log_system/log_src/ThreadPool.cpp:57-65 | For all other limits, a run that falls below the minimum |
| PoolMinimum.LowestIsAttained | log_system/log_src/ThreadPool.cpp:53-86 | For all limits, a run that reaches the lowest count |
| PoolMinimum.LowestCount | log_system/log_src/ThreadPool.cpp:53-115 | For all limits, the exact lowest `m_curThread` over all runs: `min` for a pool that cannot grow, else the larger of `min - 3` and -1 |
| PoolShutdown.StoppedWorkersReturn | log_system/log_src/ThreadPool.cpp:92-136 | From every reachable state of a stopped pool all workers can return: none is a deadlock |
| PoolShutdown.ManagerFinishes | log_system/log_src/ThreadPool.cpp:50-90 | Once every worker of a stopped pool has returned, the manager can finish exactly if it is not waiting, or bound to wait, for an id with none listed; else no run lets it |
| PoolShutdown.ShutdownCanHang | log_system/log_src/ThreadPool.cpp:19-66 | A run that ends in such a state exists exactly if the pool can grow |

## Left out

- zstd itself: `pack` and `unpack` are parameters; where needed, unpacking is assumed to undo a compression that succeeded.
- JSON text: the persisted file is a sequence of records. `UnSerialize` in `src/server/Util.hpp` is taken to parse what `Serialize` wrote; its return value is ignored by its caller.
- libevent, sockets, the HTML listing, reply texts and the backup client and server: input and output plumbing. A reply body is the file's content when it is sent; the body sent for a directory is left open.
- Service.Server.HandleDownload: the `If-Range` header, whose match turns the status 200 into 206 and changes nothing else. A download of a url that is not in the table is modelled, but the refinement says only that it changes no entry.
- Service.Server.SendFile: the status 206, as above, and a file that exists but cannot be opened for reading.
- Requests without a `FileName` or `StorageType` header (a null pointer in the source).
- Files.Disk.SetContent: permissions, a full disk and over-long names. Opening fails for a missing directory, an empty name and the name of a directory.
- StoreRefinement.DownloadReturnsLatestUpload: paths are compared as strings, so file names with an empty, "." or ".." component before a slash are excluded (`Unaliased`), as are links and a second spelling of a storage directory. Names with a NUL are excluded only where they do harm (`Admissible`), and numbers that `asInt` cannot read back altogether: `StoreClient.LateTimeStopsTheServer` shows why. Neither storage directory lies inside the other, and no file stands in their way at the start.
- Concurrent `Insert` and `Update`: requests come from one event loop, so the table and its file are updated in one piece here.
- Clocks, time formatting, message formatting, configuration loading, the logger registry and the benchmarks. The times of `stat` and of the logger are parameters.
- AsyncWorker.AsyncWorker.WritePush: an ASYNC_UNSAFE message longer than one growth is admitted but its write, which is out of bounds, is not a step of the model; `AsyncBuffer.PushInBounds` says exactly when that is.
- AsyncBuffer.Buffer.Push: the same write out of bounds.
- `size_t` wrap-around of buffer positions, of `cur_size_` and of `cnt_`, which would take more memory or files than exist.
- LogFlush.RollFileFlush.Flush: `fopen` and `fwrite` succeed; `fflush` and `fsync` are not modelled, so a file's content is what was written, durable or not. Each rolling sink has a view of its own directory; two sinks on one base name are not modelled.
- AsyncLogger.AsyncLogger.RealFlush: the sinks are pairwise different objects.
- Liveness: lost wake-ups and fairness in the worker and the pool. A wait may end at any time at which its condition allows it.
- The destructor of the pool beyond setting `m_stop` and the joins' need for every thread to return: its unlocked walk over `m_workers` while the manager may still change it.
- ThreadPool.ThreadPool.constructor: the pool is taken from the end of construction, and `m_exitThread`, which the source leaves unset, as 0.
- Tasks that throw: a packaged task stores the exception, another one ends the process.
