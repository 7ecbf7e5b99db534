# Verified models of the RustDesk libraries

A Dafny 4.11 model of the protocol, parser and state-machine code in `libs/` of this repository, with proofs of
what that code is for. `dafny verify dfyconfig.toml` checks everything.

| file | models |
|---|---|
| `FrameCodec.dfy` | the length-prefixed frame codec, `libs/hbb_common/src/bytes_codec.rs` |
| `SecureStream.dfy` | the counter-nonce layer and the framed stream, `libs/hbb_common/src/tcp.rs` |
| `Transfer.dfy` | one file transfer job, sender and receiver, `libs/hbb_common/src/fs.rs` |
| `TransferHandshake.dfy` | the digest/confirm handshake and the queue of read jobs |
| `TransferDelivery.dfy` | what the receiver's disk holds after a transfer, and the byte counters |
| `TransferCompletion.dfy` | how many reads and confirmations a transfer takes, and the runs in which it goes wrong |
| `TransferFaults.dfy` | where the bytes go when synchronising, creating or writing files fails now and then |
| `TransferLeftovers.dfy` | the rest of the disk after such a delivery, and which leftover downloads it installs |
| `TransferAnswers.dfy` | what the answers to the blocks tell about the created files |
| `FuseTree.dfy`, `FuseLookup.dfy`, `FuseServer.dfy` | the clipboard file system: tree, lookup and listing, handles, `libs/clipboard/src/platform/fuse.rs` |
| `FuseAnswers.dfy` | every answer of the clipboard file system, told from the messages exchanged before it |
| `KeyDsl.dfy` | the key-sequence language, `libs/enigo/src/dsl.rs` |
| `Recorder.dfy` | the session recorder, `libs/scrap/src/common/record.rs` |
| `Negotiation.dfy` | the choice of a codec for all peers, `libs/scrap/src/common/codec.rs` |
| `Package.dfy` | the portable package, `libs/portable/generate.py` and `libs/portable/src/bin_reader.rs` |
| `AddrMangle.dfy` | mangled socket addresses, `libs/hbb_common/src/lib.rs` |
| `Displays.dfy` | the reordering of displays, `libs/scrap/src/common/dxgi.rs` |
| `Basics.dfy` | bytes, results, fixed-width integers, shifts and bitwise or |

Each component has a specification as functions (`DecodeStep`, `ReadStep`, `WriteStep`, `Scan`, `Checked`, ...),
an imperative form that follows the source (classes `BytesCodec`, `Encrypt`, `FramedStream`, `TransferJob`,
`JobQueue`, `Server`, `FileRecorder`, `Recorder`, `Encoder`, loops where the source loops) and is proved to do
exactly what the functions say, and lemmas about the functions over all inputs and all runs.

What the environment decides is an input: how the socket splits the wire, how the operating system splits a
read (a nondeterministic choice inside `FillBuffer`), whether opening, synchronising, creating, writing, sending
or muxing succeeds, in which order a hash map is visited, the clock. secretbox, the compressor and the muxer are
ideal functions or answers.

## Where the code does less than it is meant to

Each of these is proved, with the exact condition under which the intended property holds where there is one.

- `send_raw` advances the send counter before the codec can refuse an oversized message, so one refused message
  makes every later sealed message unreadable; an unsealed frame of two or more bytes, which `send_bytes` lets
  through, does the same to the receiver's counter: `ChannelDelivers` (delivery if and only if `InStep`),
  `RefusedMessageBreaksChannel`, `UnsealedIsLost`.
- In raw mode the frames are the same for all chunkings of a stream if and only if it has at most one byte:
  `RawDependsOnChunks`.
- Two sealed messages of a run share a nonce if and only if the number of messages sealed from the first up to the
  second is a multiple of 2^64: `NonceReuse`.
- If sending a digest fails, the file is open but not waiting; a confirmation that arrives then lets blocks out
  although no digest was ever sent: `BlockWithoutDigest`. A digest was sent before a confirmation if and only if that
  confirmation found `file_is_waiting` set: `HandshakeSafety`; it always was if no digest failed to be sent:
  `SentDigestsPrecedeBlocks`.
- A job is finished by the next visit if and only if it is past its list and, with detection, the last thing that
  happened to it was not a confirmation: `FinishedUnlessConfirmed`. So a confirmation that arrives after the last
  file keeps the job in the queue until a skip for that same number: `LateConfirmKeepsJob`.
- A skip that is confirmed after a block was sent installs the truncated file: `SkipAfterBlockTruncates`. A skipped
  file is left alone if and only if no block of it went out before the skip: `SkippedUntouched`.
- A `.download` left over for the first file of a job is installed when no block replaces it: `ReceiverInstalls`
  (if and only if not `Stale`). When creations fail, the leftover of each file that was answered with CreateError and
  never created is installed as well, and nothing else: `WholeDisk`, `RestUntouchedIff`.
- A failed `File::create` keeps the previous handle, and the next block of the new file is appended to the
  previous one: `FailedCreateCorrupts`. A block goes astray if and only if it has bytes to write and an earlier block of
  the same file was answered with CreateError while another file was open (`AstrayIffAfterCreateError`). Every created
  file holds exactly those of its own bytes that got through if and only if nothing goes astray (`FilesIntactIff`).
- With no file open the creation is tried again, and the blocks before it succeeds are lost (`RetryLosesBlocks`). What
  the answers account for is all bytes of a created file if and only if each of its blocks with bytes was accepted; it
  is what the file holds if and only if no block of another file went into it (`CreatedFileEnds`). If either holds of
  all created files, they are complete and correct if and only if both do (`CompleteIffAnswered`); if neither does,
  the same answers go with a right and with a wrong file, as a stray byte may happen to fill the gap: `StrayFillsGap`.
- In the key language a text behind a tag must not start with a closing brace: its doubled brace is read as part of the
  tag, and the whole input is refused: `ModifierIsHeld`, `UnicodeIsTyped` (if and only if).
- The comment in `FileHandles` that argues why handles stay sorted holds until the 64-bit counter wraps, and no
  longer: `HandleBoundIsExact`, `WrapBreaksOrder`.
- `build_tree` takes a pre-ordered list for granted; `BuiltWalkIsListOrder` says exactly which lists make the
  depth-first order of the built tree the list order.
- The recorder's files are offered a key frame first, but a muxer that refuses it and takes the next frame
  leaves a file without one: `RefusedKeyFrame`. With a muxer that answers by the frame, every file of every run starts
  with a key frame if and only if the muxer never refuses a key frame and takes another one that is not earlier:
  `FirstWrittenIsKey`; if it does not look at the time, if and only if it takes all key frames or no others:
  `TimeBlindMuxer`.
- Negative time stamps wrap: `TimeFits` (if and only if). The stamps of an output are handed over in order if and only
  if no later frame is a lap of the 64-bit clock ahead by less than the lap's length: `TimesInOrder`; near zero, if and
  only if none steps across zero by less than 2^64 nanoseconds: `NearZero`, `TimesOutOfOrder`.
- VP9 is chosen without asking whether the peers can decode it: the choice can be decoded by all peers if and only if
  VP9 can or VP9 was not forced: `DecodableIffNotForced`, `VP9Unchecked`. On a tie the vote depends on the visiting
  order of the map: `OrderIrrelevantIffDecided`.
- An entry whose path is 0x72757374 bytes long and starts with "desk" reads as the end of the package:
  `WriteThenRead` (if and only if there is none). The length alone is not enough.
- `AddrMangle` loses the flow label and scope of an IPv6 address: `DecodeEncode` (if and only if).
- The branch of the display reordering that is marked unreachable is reached exactly when the two lists carry
  different multisets of names: `NoMissIffSameNames`.

## Model

| member | source | states |
|---|---|---|
| FrameCodec.HeaderParses | libs/hbb_common/src/bytes_codec.rs:41-66 | a written header followed by anything parses to its own width and length, for all four widths |
| FrameCodec.HeaderIsShortest | libs/hbb_common/src/bytes_codec.rs:41-66 | no header announces more than 0x3FFFFFFF bytes, and the encoder's header is never longer than one that parses to the same length |
| FrameCodec.DecodeExtends | libs/hbb_common/src/bytes_codec.rs:80-107 | a decode step that produced a frame or an error is not changed by bytes that arrive later; one that asked for more continues where it stopped |
| FrameCodec.ChunkInvariance | libs/hbb_common/src/bytes_codec.rs:80-107 | for every byte stream, valid or not, the frames and the "Too big packet" failure depend on the concatenated bytes only, never on the chunks |
| FrameCodec.DecodeInvertsEncode | libs/hbb_common/src/bytes_codec.rs:113-134 | decoding the wire of a list of messages gives the list back and leaves what follows |
| FrameCodec.RoundTrip | libs/hbb_common/src/bytes_codec.rs:80-134 | in whatever chunks the wire of a list of messages arrives, exactly the messages come out, if and only if they all fit the packet limit |
| FrameCodec.OversizedFails | libs/hbb_common/src/bytes_codec.rs:60-63 | a message above the receiver's limit makes the decoder fail |
| FrameCodec.RawKeepsBytes | libs/hbb_common/src/bytes_codec.rs:80-89 | in raw mode nothing is lost or reordered |
| FrameCodec.RawDependsOnChunks | libs/hbb_common/src/bytes_codec.rs:80-89 | in raw mode all chunkings of a stream give the same frames if and only if it has at most one byte |
| FrameCodec.HeaderAsWritten | libs/hbb_common/src/bytes_codec.rs:113-134 | the shifts, bitwise ors, casts and split three-byte store of the encoder write the header of the format, little-endian with the width in the low two bits |
| FrameCodec.TagAdds | libs/hbb_common/src/bytes_codec.rs:119-128 | or-ing the width tag into a length shifted left by two adds it |
| FrameCodec.BytesCodec.SetRaw | libs/hbb_common/src/bytes_codec.rs:33-35 | switches raw mode on and keeps the decoder's state |
| FrameCodec.BytesCodec.SetMaxPacketLength | libs/hbb_common/src/bytes_codec.rs:37-39 | sets the limit only |
| FrameCodec.BytesCodec.DecodeHead | libs/hbb_common/src/bytes_codec.rs:41-66 | consumes a complete header and returns its length; waits, or fails above the limit, without consuming anything |
| FrameCodec.BytesCodec.DecodeData | libs/hbb_common/src/bytes_codec.rs:68-78 | splits off the payload once it is complete, and waits without consuming otherwise |
| FrameCodec.BytesCodec.Decode | libs/hbb_common/src/bytes_codec.rs:80-107 | one step of the incremental decoder: frame, wait or failure, with the new state and the remaining buffer |
| FrameCodec.BytesCodec.Encode | libs/hbb_common/src/bytes_codec.rs:113-134 | appends header and payload, or reports Overflow above 0x3FFFFFFF and leaves the buffer alone |
| SecureStream.IdealBoxExists | libs/hbb_common/src/tcp.rs:293-318 | the laws assumed of secretbox are consistent |
| SecureStream.NonceLayout | libs/hbb_common/src/tcp.rs:202-206 | the first eight bytes of a nonce hold its counter, little-endian, and zeros follow |
| SecureStream.NonceInjective | libs/hbb_common/src/tcp.rs:202-206 | counters below 2^64 have distinct nonces |
| SecureStream.NonceReuse | libs/hbb_common/src/tcp.rs:314-318 | two sealed messages of a run share a nonce if and only if the number of messages sealed from the first up to the second is a multiple of 2^64 |
| SecureStream.NonceCounts | libs/hbb_common/src/tcp.rs:202-206 | in every run the first eight bytes of the nonce of a sealed message hold the number of messages sealed up to it, modulo 2^64, starting with 1, and sixteen zeros follow |
| SecureStream.FrameUsesNonce | libs/hbb_common/src/tcp.rs:157-164 | the wire of any run holds each sealed message, if the codec takes it, under the nonce of the messages sealed before it |
| SecureStream.CounterCountsEncrypted | libs/hbb_common/src/tcp.rs:298-312 | the receive counter is the number of frames longer than one byte consumed so far, modulo 2^64 |
| SecureStream.FramesArrive | libs/hbb_common/src/tcp.rs:157-188 | for any sends, what arrives is decided by the distance of the two counters: refused sealed messages widen it, long unsealed frames narrow it |
| SecureStream.ArrivesIffInStep | libs/hbb_common/src/tcp.rs:157-188 | the receiver gets exactly the accepted messages if and only if nothing was sealed while the counters were apart and no frame of two or more bytes went unsealed |
| SecureStream.ChannelDelivers | libs/hbb_common/src/tcp.rs:157-188 | for every sequence of sealed messages and unsealed frames, and every chunking of the wire, the receiver gets the sent payloads in order, if and only if the counters stayed in step and no frame of two or more bytes went unsealed |
| SecureStream.UnsealedIsLost | libs/hbb_common/src/tcp.rs:298-312 | an unsealed frame of two or more bytes is never handed over as it was sent |
| SecureStream.InStepWhenAllAccepted | libs/hbb_common/src/tcp.rs:157-164 | the channel stays in step when the codec takes every message and unsealed frames are at most one byte |
| SecureStream.RefusedMessageBreaksChannel | libs/hbb_common/src/tcp.rs:157-164 | one oversized message makes the next sealed message fail to open |
| SecureStream.Encrypt.GetNonce | libs/hbb_common/src/tcp.rs:202-206 | fills a 24-byte array: the first eight bytes have the counter as their little-endian value, the others are zero |
| SecureStream.Encrypt.Dec | libs/hbb_common/src/tcp.rs:298-312 | lets frames of at most one byte pass uncounted; otherwise advances the receive counter and replaces the frame by its plaintext, or fails and keeps it |
| SecureStream.Encrypt.Enc | libs/hbb_common/src/tcp.rs:314-318 | advances the send counter and seals under it |
| SecureStream.FramedStream.SetKey | libs/hbb_common/src/tcp.rs:198-200 | starts both counters at zero |
| SecureStream.FramedStream.SetRaw | libs/hbb_common/src/tcp.rs:142-145 | raw codec and no encryption |
| SecureStream.FramedStream.SendBytes | libs/hbb_common/src/tcp.rs:167-174 | writes one frame or reports Overflow |
| SecureStream.FramedStream.SendRaw | libs/hbb_common/src/tcp.rs:157-164 | seals if there is a key and writes one frame, or the bytes as they are on a raw codec; the counter advances even if the frame is refused |
| SecureStream.FramedStream.Next | libs/hbb_common/src/tcp.rs:177-188 | one decoded frame, raw or framed, handed over as it is without a key and opened under the next counter with one |
| SecureStream.Transmit | libs/hbb_common/src/tcp.rs:157-188 | one connected object sends any messages, the wire is cut in any way, the other object receives: what arrives is decided by the counters and is what was sent if and only if they stay in step |
| Transfer.TransferJob.SetFileConfirmed | libs/hbb_common/src/fs.rs:604-608 | sets the flag and clears the skip |
| Transfer.TransferJob.SetFileSkipped | libs/hbb_common/src/fs.rs:657-665 | closes the file, clears the handshake and passes the file |
| Transfer.TransferJob.Confirm | libs/hbb_common/src/fs.rs:667-686 | ignores answers for other files, otherwise skips or confirms, and returns the events of the step; `WantedFileIsReleased` says which answers let blocks out |
| Transfer.TransferJob.FillBuffer | libs/hbb_common/src/fs.rs:512-534 | however the system splits the reads, the buffer gets the next 131072 bytes or the rest of the file |
| Transfer.TransferJob.ReadBlock | libs/hbb_common/src/fs.rs:512-562 | the block for the bytes read, compressed when that is shorter, with both counters; an empty block closes the file, an error drops it |
| Transfer.TransferJob.Read | libs/hbb_common/src/fs.rs:483-563 | one step of the sender: state, result and events, for every outcome of opening, digest and reading |
| Transfer.TransferJob.ModifyTime | libs/hbb_common/src/fs.rs:407-420 | renames the current download to its final name |
| Transfer.TransferJob.Switch | libs/hbb_common/src/fs.rs:440-453 | finishes the file in hand, synchronises it and starts the next download, with what remains when one of these fails |
| Transfer.TransferJob.Write | libs/hbb_common/src/fs.rs:432-472 | one step of the receiver: rejects foreign blocks, switches files, appends the plain bytes, counts; with every failure of the file system and the part of a write that got through |
| Transfer.JoinLeads | libs/hbb_common/src/fs.rs:475-481 | a relative name leads from a directory through its own path components, with one slash at the seam; an absolute name leads to itself |
| Transfer.PathLeads | libs/hbb_common/src/fs.rs:407-481 | a listed file lies below the job's directory under its listed name, and its download has the suffix ".download" |
| TransferHandshake.RunKeepsInv | libs/hbb_common/src/fs.rs:483-563 | over every run, an open file was opened by an event of this run, waits exactly if a digest was sent since, and is marked confirmed only after a confirmation since |
| TransferHandshake.HandshakeSafety | libs/hbb_common/src/fs.rs:483-686 | in every run with detection, before each block of file k lies an opening of k with a digest attempt right behind it and later a confirmation, with no other opening in between; a digest had been sent by then if and only if the confirmation found the job waiting |
| TransferHandshake.SentDigestsPrecedeBlocks | libs/hbb_common/src/fs.rs:504-511 | if no digest failed to be sent, a sent digest and then a confirmation precede every block |
| TransferHandshake.EachOpeningSendsOneDigest | libs/hbb_common/src/fs.rs:490-511 | in every run with detection each opening is followed at once by its digest; once that is sent, no other digest follows before the next opening |
| TransferHandshake.BlockWithoutDigest | libs/hbb_common/src/fs.rs:504-510 | a failed digest and a confirmation let a block out without any digest having been sent |
| TransferHandshake.FileNumMonotone | libs/hbb_common/src/fs.rs:483-686 | `file_num` never decreases over a run |
| TransferHandshake.FileNumCounts | libs/hbb_common/src/fs.rs:483-686 | in every run `file_num` is the first number plus the files that were sent whole, failed or were skipped, which are passed one by one and in order |
| TransferHandshake.FinishedOnlyAtEnd | libs/hbb_common/src/fs.rs:813-855 | a visit of the queue finishes a job if and only if it has passed its last file and is not in a handshake |
| TransferHandshake.FinishedUnlessConfirmed | libs/hbb_common/src/fs.rs:644-686 | after any run of a fresh job, the next visit finishes it if and only if it is past its list and, with detection, its last event is not a confirmation |
| TransferHandshake.ErrorsTell | libs/hbb_common/src/fs.rs:483-534 | a read fails with the error of what happened: the file did not open, its digest did not get out, or it could not be read |
| TransferHandshake.VisitTells | libs/hbb_common/src/fs.rs:813-850 | after any run, the next visit sends the block its read emitted, an error exactly if something failed or the job ends with a single file whose last accepted answer was a skip, and otherwise that it is done, exactly if it is finished |
| TransferHandshake.LateConfirmKeepsJob | libs/hbb_common/src/fs.rs:644-686 | a job that runs past its list and is then confirmed is not finished after any further actions without a skip for that number, and is finished after one |
| TransferHandshake.JobQueue.HandleReadJobs | libs/hbb_common/src/fs.rs:813-855 | the jobs are read in order with their messages sent and the last finished one logged; exactly those with the id of a finished one are removed; a refused message stops the round there, removes none and leaves the later jobs unread |
| TransferHandshake.JobQueue.VisitOne | libs/hbb_common/src/fs.rs:820-850 | the message, the verdict and the log entry for one job |
| TransferHandshake.JobQueue.RemoveJob | libs/hbb_common/src/fs.rs:799-801 | keeps the other jobs in order |
| TransferHandshake.DropsOnlyFinished | libs/hbb_common/src/fs.rs:813-855 | with distinct ids a job is dropped if and only if its own visit found it past its last file |
| TransferDelivery.RenameTells | libs/hbb_common/src/fs.rs:407-420 | a rename moves one file over another name and nothing else; an open handle follows its own file, to the new name or to none if it was overwritten |
| TransferDelivery.RenameInstalls | libs/hbb_common/src/fs.rs:407-420 | finishing installs the file being downloaded and nothing else |
| TransferDelivery.SameFileBlock | libs/hbb_common/src/fs.rs:432-472 | a further block of a file extends its download by its plain bytes |
| TransferDelivery.NewFileBlock | libs/hbb_common/src/fs.rs:432-472 | the first block of the next file installs the previous one and starts a fresh download |
| TransferDelivery.ReceiverInstalls | libs/hbb_common/src/fs.rs:407-472 | any ordered blocks followed by `modify_time` install exactly the files that got blocks, with exactly their bytes, and touch nothing else, if and only if no stale download is picked up |
| TransferDelivery.RunKeepsSending | libs/hbb_common/src/fs.rs:483-563 | over every run of the sender, its blocks spell out prefixes of the source files, whole files once closed, and its counters are their plain and packed sizes |
| TransferDelivery.BlocksArePacked | libs/hbb_common/src/fs.rs:304-316 | in every run a block is compressed if and only if its file does not end in one of the nine endings of packed formats and that makes the bytes fewer |
| TransferDelivery.TransferFidelity | libs/hbb_common/src/fs.rs:407-563 | for every run of the sender, with or without handshake, delivering its blocks leaves each completed file identical under its final name, empty ones included, every other sent file a prefix, everything else untouched, and equal counters on both sides |
| TransferDelivery.ReceiverCounts | libs/hbb_common/src/fs.rs:454-471 | the receiver's counters are the plain and packed bytes delivered |
| TransferDelivery.StrangersRefused | libs/hbb_common/src/fs.rs:432-439 | a block for another job or outside the list is refused with its own error and changes nothing |
| TransferDelivery.StrangersIgnored | libs/hbb_common/src/fs.rs:432-439 | a delivery goes as if such blocks had never come |
| TransferDelivery.SkippedUntouched | libs/hbb_common/src/fs.rs:657-686 | a skipped file gets a block if and only if one was sent before the skip |
| TransferCompletion.WantedFileIsReleased | libs/hbb_common/src/fs.rs:667-686 | in every run with detection, the good read after an answer lets a block of the open, unconfirmed file out if and only if the answer has its number and is "do not skip" or an offset, and no other block |
| TransferCompletion.PromptTransferEnds | libs/hbb_common/src/fs.rs:483-563 | when nothing fails and each digest is answered at once, with "do not skip" or with any offset, a file of s bytes takes exactly ceil(s/131072)+1 reads, and with detection one read and one answer more; from whatever file the job starts, it ends after their sum and no sooner, with every file from there on closed, and the next visit finishes it |
| TransferCompletion.UndetectedOnlyReads | libs/hbb_common/src/fs.rs:490-511 | without detection no digest is sent, so such a run is its reads alone |
| TransferCompletion.PromptTransferDelivers | libs/hbb_common/src/fs.rs:407-563 | after that many reads and the delivery every file from the first on is on the receiver's disk, identical, and both sides agree on both counters, with and without detection |
| TransferCompletion.NotSooner | libs/hbb_common/src/fs.rs:512-562 | after fewer reads the job is still inside its list |
| TransferCompletion.SkipAfterBlockTruncates | libs/hbb_common/src/fs.rs:657-686 | a skip after the first block leaves the first 131072 bytes under the final name |
| TransferCompletion.FailedCreateCorrupts | libs/hbb_common/src/fs.rs:441-453 | after a failed creation the next block of the new file ends up in the previous file |
| TransferFaults.DeliveryFollows | libs/hbb_common/src/fs.rs:432-472 | whatever fails, after every block the handle and each created file are where the course of the delivery says, with the contents it says |
| TransferFaults.FilesArePoured | libs/hbb_common/src/fs.rs:432-472 | that content is exactly the bytes of the blocks written while the handle was the file's, in order |
| TransferFaults.FilesIntactIff | libs/hbb_common/src/fs.rs:407-472 | every created file ends up with exactly the bytes of its own blocks that reached it, if and only if no block with bytes was written into another file; `TransferLeftovers.WholeDisk` says what becomes of the rest |
| TransferFaults.MisledIff | libs/hbb_common/src/fs.rs:440-453 | a block is written into a file that is not its own if and only if an earlier block of its file was answered with CreateError while another file was open |
| TransferFaults.AstrayIffAfterCreateError | libs/hbb_common/src/fs.rs:440-453 | a block goes astray if and only if it writes bytes and an earlier block of its file was answered with CreateError while another file was open |
| TransferFaults.RetryLosesBlocks | libs/hbb_common/src/fs.rs:440-453 | an example: with no file open the creation is retried for each block, and the final file holds the blocks from the first success on; `TransferAnswers.CreatedFileEnds` covers all deliveries |
| TransferFaults.DeliverWithoutFaults | libs/hbb_common/src/fs.rs:432-472 | without failures this is the delivery of `TransferFidelity` |
| TransferLeftovers.WholeDisk | libs/hbb_common/src/fs.rs:407-472 | the whole disk after any delivery with failures: names foreign to the job are as before, created files are under their final name without a download left, and of the other files exactly those that were the first or answered with CreateError have their leftover download, if there is one, installed |
| TransferLeftovers.RestUntouchedIff | libs/hbb_common/src/fs.rs:407-453 | the files that were not created are left alone if and only if none of them was the first or answered with CreateError and had a leftover download |
| TransferAnswers.AnswerTellsFate | libs/hbb_common/src/fs.rs:432-472 | a block with bytes gets into a file whole if and only if it is answered Ok, in part if and only if the write fails, and not at all otherwise |
| TransferAnswers.CreatedIff | libs/hbb_common/src/fs.rs:440-453 | a file is created if and only if one of its blocks is answered Ok or DiskError without being misled |
| TransferAnswers.CreatedIsNotMisled | libs/hbb_common/src/fs.rs:440-453 | no block of a file that gets created is ever written into another file |
| TransferAnswers.CreatedFileEnds | libs/hbb_common/src/fs.rs:407-472 | a created file ends as what its answers account for if and only if no other block put bytes into it; that is all its bytes if and only if each of its blocks with bytes was answered Ok |
| TransferAnswers.CompleteIffAnswered | libs/hbb_common/src/fs.rs:407-472 | if nothing went astray or every block of the created files was answered Ok, all created files are complete and correct if and only if both hold |
| TransferAnswers.StrayFillsGap | libs/hbb_common/src/fs.rs:440-472 | when both fail, the same answers go with a right file, if the stray byte happens to fill the gap of a failed write, and with a wrong one otherwise |
| FuseTree.BuildTree | libs/clipboard/src/platform/fuse.rs:853-902 | builds the tree of the list, or reports the first entry without a file name |
| FuseTree.TreeShape | libs/clipboard/src/platform/fuse.rs:853-902 | every node but the root is in exactly one list of children, once, that of the directory its parent field names, which has a smaller inode; its index is inode - 2 |
| FuseTree.NodeCarriesEntry | libs/clipboard/src/platform/fuse.rs:853-902 | a node has the name, kind and size of its entry and no handles; the root is a directory named "/" of size 0 |
| FuseTree.ChildrenComplete | libs/clipboard/src/platform/fuse.rs:845-876 | an inode is listed as a child of exactly its parent |
| FuseTree.WalkReaches | libs/clipboard/src/platform/fuse.rs:849-902 | the depth-first walk below a node visits exactly its descendants |
| FuseTree.WalkGrows | libs/clipboard/src/platform/fuse.rs:865-900 | an appended entry enters every walk that contains its parent right behind the parent's, and no other |
| FuseTree.WalkIsListOrder | libs/clipboard/src/platform/fuse.rs:849-902 | the walk from the root is 1, 2, ..., n+1 if and only if each entry's parent is on the ancestor chain of the entry before it |
| FuseTree.BuiltWalkIsListOrder | libs/clipboard/src/platform/fuse.rs:849-902 | following the children of the built nodes from the root visits 1, 2, ..., n+1 if and only if the list is in pre-order |
| FuseLookup.LookupStep | libs/clipboard/src/platform/fuse.rs:222-271 | lookup below a node reached by its path finds an inode if and only if the extended path is the path of that entry |
| FuseLookup.ResolveFindsDescriptor | libs/clipboard/src/platform/fuse.rs:222-271 | resolving any path name by name from the root returns the inode of the entry with that path, and fails if there is none |
| FuseLookup.PagesAreListing | libs/clipboard/src/platform/fuse.rs:303-353 | asking again with the last cookie, for any capacities, yields the listing from the start, each entry once and in order |
| FuseLookup.PagingIsComplete | libs/clipboard/src/platform/fuse.rs:303-353 | with room for one entry per call, as many calls as entries list the whole directory |
| FuseServer.LoadedListResolves | libs/clipboard/src/platform/fuse.rs:200-271 | a well-listed list is accepted, and path resolution on the loaded server then finds exactly its entries |
| FuseServer.ReadingIsListing | libs/clipboard/src/platform/fuse.rs:303-353 | over a run of requests that neither loads a list nor closes its handle, a reader is given the listing from its cookie on, each entry once and in order |
| FuseServer.OpenDirectoryIsListed | libs/clipboard/src/platform/fuse.rs:273-353 | after any run within the bound, a reader with a live directory handle that asks often enough is given the whole directory |
| FuseServer.HandleSafety | libs/clipboard/src/platform/fuse.rs:384-481 | over every run with at most 2^64 opens, every handle vector is strictly ascending, no handle is on two nodes, and an inode holds exactly the handles opened on it since the last list and not released |
| FuseServer.OpenedTimesRun | libs/clipboard/src/platform/fuse.rs:384-409 | opening one file n times hands out 0, 1, 2, ... modulo 2^64, and the node keeps them all |
| FuseServer.WrapBreaksOrder | libs/clipboard/src/platform/fuse.rs:1022-1040 | with more than 2^64 opens the vector is no longer sorted |
| FuseServer.HandleBoundIsExact | libs/clipboard/src/platform/fuse.rs:1022-1062 | every run with n opens keeps the handles safe if and only if n is at most 2^64 |
| FuseAnswers.RunStands | libs/clipboard/src/platform/fuse.rs:200-220 | over every run the nodes are those of the last accepted list, up to their handles, or a lone root, and the generation is the number of accepted lists modulo 2^64 |
| FuseAnswers.ReadsOverRuns | libs/clipboard/src/platform/fuse.rs:303-444 | over every run within the bound, a read is admitted if and only if the handle is live on the inode and the inode is a file, and a directory is listed if and only if it is live and a directory; EBADF, ENFILE or ENOTDIR, and ENOENT in exactly the other cases |
| FuseAnswers.ReleasesOverRuns | libs/clipboard/src/platform/fuse.rs:355-481 | over every run within the bound, a release succeeds if and only if the handle is live, EBADF if and only if the inode exists and it is not; a directory is released if and only if it is one, which is checked first, and the handle is live |
| FuseAnswers.OpensOverRuns | libs/clipboard/src/platform/fuse.rs:273-409 | over every run within the bound, opening succeeds if and only if the inode is of the wanted kind, and hands out the number of handles given so far |
| FuseAnswers.MarkedIsBusy | libs/clipboard/src/platform/fuse.rs:273-444 | a node marked for collection, which no run has, is refused with EBUSY to openers and readers that pass every other check |
| FuseAnswers.LoadsOverRuns | libs/clipboard/src/platform/fuse.rs:200-220 | a list is accepted if and only if every entry has a file name |
| FuseAnswers.LookupsOverRuns | libs/clipboard/src/platform/fuse.rs:222-271 | over every run, a lookup finds the first entry of the current list with this parent and name, with the generation; each errno in exactly its case |
| FuseAnswers.ListingTells | libs/clipboard/src/platform/fuse.rs:303-345 | the listing of a directory is ".", then ".." with the directory its path lies in unless it is the root, then exactly the entries whose path is its own extended by their name, with their kinds, in list order |
| FuseServer.WithoutIsRemoval | libs/clipboard/src/platform/fuse.rs:1051-1062 | removing a handle removes exactly it and keeps the order |
| FuseServer.BinarySearch | libs/clipboard/src/platform/fuse.rs:1046-1049 | on an ascending vector the search succeeds exactly for the handles in it, at their position |
| FuseServer.Server.InitRoot | libs/clipboard/src/platform/fuse.rs:209-220 | an empty server gets a root, another one is unchanged |
| FuseServer.Server.LoadFileList | libs/clipboard/src/platform/fuse.rs:200-205 | a list that builds replaces the tree and advances the generation, another one changes nothing |
| FuseServer.Server.AllocFd | libs/clipboard/src/platform/fuse.rs:519-521 | returns the counter and advances it modulo 2^64 |
| FuseServer.Server.LookupName | libs/clipboard/src/platform/fuse.rs:222-271 | the loop over the children answers like `Lookup`, with its four errors |
| FuseServer.Server.OpenFile | libs/clipboard/src/platform/fuse.rs:384-409 | hands out the next handle and appends it, for files only |
| FuseServer.Server.OpenDirectory | libs/clipboard/src/platform/fuse.rs:273-301 | the same for directories only |
| FuseServer.Server.HaveHandler | libs/clipboard/src/platform/fuse.rs:1046-1049 | whether the handle is open on the inode |
| FuseServer.Server.ReadCheckFirst | libs/clipboard/src/platform/fuse.rs:412-444 | the order of the checks before a read; `FuseAnswers.ReadsOverRuns` says when it is admitted |
| FuseServer.Server.ReadDirectory | libs/clipboard/src/platform/fuse.rs:303-353 | one page of ".", ".." if there is a parent, and the children |
| FuseServer.Server.Unregister | libs/clipboard/src/platform/fuse.rs:1051-1062 | removes the handle or reports that there is none |
| FuseServer.Server.ReleaseFile | libs/clipboard/src/platform/fuse.rs:458-481 | EBADF without such a handle, otherwise exactly this handle is gone |
| FuseServer.Server.ReleaseDirectory | libs/clipboard/src/platform/fuse.rs:355-382 | the same, for directories only |
| FuseServer.Server.Handle | libs/clipboard/src/platform/fuse.rs:208-503 | one request, answered by the step of the specification |
| FuseServer.Server.Serve | libs/clipboard/src/platform/fuse.rs:208-503 | a whole run of requests from the start goes exactly as specified, and every handler finds the vectors sorted |
| KeyDsl.ScanWellFormed | libs/enigo/src/dsl.rs:89-148 | whatever is accepted yields well-formed tokens: non-empty texts, known keys, a text starting with a closing brace only as a sequence at index 0 |
| KeyDsl.ScanEscaped | libs/enigo/src/dsl.rs:89-142 | scanning an escaped text appends exactly the text |
| KeyDsl.PrintRoundTrip | libs/enigo/src/dsl.rs:72-148 | tokenizing a printed list of well-formed tokens gives the list back |
| KeyDsl.ExactImage | libs/enigo/src/dsl.rs:72-148 | some input is tokenized to a list if and only if the list is well-formed |
| KeyDsl.ReadTagLoop | libs/enigo/src/dsl.rs:97-118 | reads a tag up to its closing brace, with doubled braces inside, or reports which brace is missing |
| KeyDsl.Tokenize | libs/enigo/src/dsl.rs:72-148 | the nested loops compute the scan, errors included |
| KeyDsl.Eval | libs/enigo/src/dsl.rs:45-62 | presses nothing unless the whole input is accepted, then the strokes of the tokens in order; `ModifierIsHeld` and `UnicodeIsTyped` say which strokes an input makes |
| KeyDsl.EscapedTextIsClicked | libs/enigo/src/dsl.rs:45-62 | any text with doubled braces is clicked character by character |
| KeyDsl.ModifierIsHeld | libs/enigo/src/dsl.rs:45-142 | for SHIFT, CTRL, META and ALT and any text, the "+" tag, the escaped text and the "-" tag press exactly Down of the key, one click per character and Up of the key, if and only if the text does not start with a closing brace; otherwise the input is refused |
| KeyDsl.UnicodeIsTyped | libs/enigo/src/dsl.rs:45-142 | behind "{+UNICODE}" a text is typed as a whole and behind "{-UNICODE}" characters are clicked again, if and only if neither text starts with a closing brace |
| KeyDsl.MalformedIsRefused | libs/enigo/src/dsl.rs:93-148 | behind any escaped text, an unclosed tag, a lone brace in a tag, a lone closing brace and an unknown tag are refused, each with its own error |
| Recorder.OutputsOverRuns | libs/scrap/src/common/record.rs:118-266 | over every run, each output is offered frames of its own width, height and format only, with non-decreasing time stamps and a key frame first, also after a rotation |
| Recorder.EventsOverRuns | libs/scrap/src/common/record.rs:118-352 | the states sent are a prefix of (NewFile NewFrame* (WriteTail or RemoveFile))* and name the outputs in order; the k-th end is WriteTail if and only if the muxer took a frame of the k-th closed output and it had lasted when it was closed, RemoveFile otherwise, and the same holds of the final drop |
| Recorder.KeyFramesKept | libs/scrap/src/common/record.rs:177-266 | while calls succeed, every key frame is offered to an output once and in order, and each call reports one NewFrame |
| Recorder.OneFrame | libs/scrap/src/common/record.rs:234-262 | a time stamp that goes back closes the output and starts one that waits for a key frame; otherwise the frame is appended unless the output still waits |
| Recorder.CheckGood | libs/scrap/src/common/record.rs:118-165 | a successful check leaves an open output of exactly the requested size and format |
| Recorder.CheckCloses | libs/scrap/src/common/record.rs:118-145 | a check closes the open output exactly for another kind under a new name, and asks then whether it has lasted |
| Recorder.CheckSucceedsIff | libs/scrap/src/common/record.rs:118-165 | exactly when a check succeeds, under which name a new output is opened, and that only a failed check marks the recorder |
| Recorder.TakeSucceedsIff | libs/scrap/src/common/record.rs:234-262 | a frame is accepted if and only if it is not a first frame without a key and, should its time go back, another output can be opened |
| Recorder.FailureIsFinal | libs/scrap/src/common/record.rs:177-195 | after a failed check nothing changes any more, and frames of no known format change nothing |
| Recorder.TimeFits | libs/scrap/src/common/record.rs:324-340 | the muxer's time stamp is the frame's in nanoseconds if and only if it is not negative and below 2^64 |
| Recorder.TimesInOrder | libs/scrap/src/common/record.rs:324-340 | over every run, the stamps of an output are handed over in order if and only if none of its frames is overtaken by a later one; they are if all lie in one lap of the 64-bit clock |
| Recorder.TimeOrder | libs/scrap/src/common/record.rs:324-340 | two stamps are handed over in order if and only if the later is not ahead by a lap that is longer than their distance |
| Recorder.NearZero | libs/scrap/src/common/record.rs:324-340 | within a lap of zero, a stamp and a later one are in order if and only if both have the same sign or they are at least 2^64 nanoseconds apart |
| Recorder.TimesOutOfOrder | libs/scrap/src/common/record.rs:234-340 | a run of two frames with times -1 and 0 hands over a greater stamp before a smaller one |
| Recorder.FirstWrittenIsKey | libs/scrap/src/common/record.rs:118-340 | with a muxer that answers by the frame, every file of every run that holds something starts with a key frame if and only if the muxer never refuses a key frame and takes another frame that is not earlier |
| Recorder.TimeBlindMuxer | libs/scrap/src/common/record.rs:118-340 | if its answer does not depend on the time, this holds if and only if it takes every key frame or refuses every other frame |
| Recorder.FilesStartWithKey | libs/scrap/src/common/record.rs:118-340 | with a muxer that takes every key frame, every file that was offered a frame starts with the first one, a key frame |
| Recorder.RefusedKeyFrame | libs/scrap/src/common/record.rs:324-340 | if the muxer refuses the key frame the file starts with the frame after it |
| Recorder.FileRecorder.WriteVideo | libs/scrap/src/common/record.rs:324-340 | drops frames until a key frame, then offers every frame and remembers whether one was taken |
| Recorder.Recorder.DropInner | libs/scrap/src/common/record.rs:342-352 | closes the output with its end: `EventsOverRuns` says which |
| Recorder.Recorder.Check | libs/scrap/src/common/record.rs:118-165 | the new state and the verdict of a check, for every answer of the system |
| Recorder.Recorder.CheckPts | libs/scrap/src/common/record.rs:234-262 | the new state and the verdict for one time stamp |
| Recorder.Recorder.WriteFrame | libs/scrap/src/common/record.rs:177-232 | the loop over the frames of a message, with its early exits |
| Negotiation.NegotiationSafety | libs/scrap/src/common/codec.rs:166-307 | after every step of every run, a format other than VP9 is usable and can be decoded by every connected peer, of which there is one |
| Negotiation.OnlyVP9Stays | libs/scrap/src/common/codec.rs:178-187 | from the entry of a VP9-only peer until an event about that peer, every step chooses VP9 |
| Negotiation.OthersKeepEntry | libs/scrap/src/common/codec.rs:169-189 | events about other peers leave a peer's entry alone |
| Negotiation.VP9Unchecked | libs/scrap/src/common/codec.rs:288-300 | VP9 is chosen even for a peer that cannot decode it |
| Negotiation.WinnerIsMostFrequent | libs/scrap/src/common/codec.rs:251-264 | the winner of a list of votes is one of them and nobody outnumbers it |
| Negotiation.SelectedIsAdmissible | libs/scrap/src/common/codec.rs:233-265 | the selected preference is admissible, some peer's own and most frequent, or Auto if no vote is admissible |
| Negotiation.DecodableIffNotForced | libs/scrap/src/common/codec.rs:233-307 | with peers connected, all can decode the chosen format if and only if all can decode VP9 or VP9 was not forced by the vote or the fallback |
| Negotiation.VP9IffForced | libs/scrap/src/common/codec.rs:266-307 | VP9 is chosen if and only if it wins the vote, or there is no vote and the automatic choice is VP9 |
| Negotiation.StrictWinnerWins | libs/scrap/src/common/codec.rs:251-264 | a preference that outnumbers every other is selected in whatever order the votes come |
| Negotiation.ChoiceGrants | libs/scrap/src/common/codec.rs:266-307 | an admissible preference is granted as it is; without one the best usable codec is taken |
| Negotiation.EventTells | libs/scrap/src/common/codec.rs:166-226 | the peers after each event, and for each format when it is usable: all of at least one peer decode it and the host encodes it |
| Negotiation.NoVoteRanks | libs/scrap/src/common/codec.rs:266-286 | without a vote h265 is chosen before h264, vp8 on at most 4 GiB, av1 with its test on, and vp9, whichever is usable first |
| Negotiation.VotesAreCounted | libs/scrap/src/common/codec.rs:233-243 | each peer with a usable preference has one vote for it, and nobody else has any |
| Negotiation.MajorityIsGranted | libs/scrap/src/common/codec.rs:233-307 | the usable preference that more peers share than any other is granted, with the format its number on the wire names |
| Negotiation.VotesDoNotDependOnOrder | libs/scrap/src/common/codec.rs:233-243 | visiting the map in another order permutes the votes |
| Negotiation.OrderIrrelevantIffDecided | libs/scrap/src/common/codec.rs:233-264 | the format is the same for every visiting order if and only if there are no votes or one preference outnumbers all others |
| Negotiation.CountVotes | libs/scrap/src/common/codec.rs:251-258 | the counting loop computes exact multiplicities, in the order of first appearance |
| Negotiation.MostFrequent | libs/scrap/src/common/codec.rs:259-264 | the first entry with the maximal count |
| Negotiation.Auto | libs/scrap/src/common/codec.rs:266-286 | h265 before h264 before vp8 on little memory before av1 before vp9 |
| Negotiation.Encoder.Update | libs/scrap/src/common/codec.rs:166-318 | peers, usable codecs and format after one update |
| Package.WriteThenRead | libs/portable/src/bin_reader.rs:71-122 | reading what was written never indexes out of bounds, and returns it if and only if no entry looks like the end mark |
| Package.ReadThenWrite | libs/portable/src/bin_reader.rs:71-122 | whatever the reader accepts is what the writer writes for the result |
| Package.EndMarkIff | libs/portable/src/bin_reader.rs:80-85 | an entry is taken for the end mark if and only if its path is 0x72757374 bytes long and starts with "desk" |
| Package.ParseWritten | libs/portable/src/bin_reader.rs:86-117 | a written entry parses to itself and what follows it |
| Package.EntryLayout | libs/portable/generate.py:45-57 | a written entry is the path length in four big-endian bytes, the path, the data length likewise, the data and the 32-byte digest |
| Package.RefusalTells | libs/portable/src/bin_reader.rs:71-122 | a file is refused as too short, as no package, or as cut off, the last if and only if it starts like a package and is not what the writer writes for any entries |
| Package.WritePackageMetadata | libs/portable/generate.py:38-58 | writes the package, or fails exactly when a length does not fit four bytes |
| Package.ReadOne | libs/portable/src/bin_reader.rs:86-117 | one round of the loop, with every bound checked |
| Package.Read | libs/portable/src/bin_reader.rs:71-122 | terminates with the parsed package or the panic of the source |
| AddrMangle.TryIntoV4Unwraps | libs/hbb_common/src/lib.rs:110-120 | the mapped form of an IPv4 address (section 2.5.5.2 of RFC 4291) turns into the address with its port, and so does the compatible form (section 2.5.5.1) unless it is the loopback address |
| AddrMangle.TryIntoV4Keeps | libs/hbb_common/src/lib.rs:110-120 | every other address stays as it is, the port always does, and unwrapping twice is unwrapping once |
| Basics.OrBelowShift | libs/hbb_common/src/lib.rs:135 | below a shift the bitwise or is a sum |
| AddrMangle.FieldsDoNotOverlap | libs/hbb_common/src/lib.rs:129-136 | the three fields take up disjoint bits of 128 |
| AddrMangle.PadUndoesStrip | libs/hbb_common/src/lib.rs:137-145 | padding with zeros undoes the stripping of trailing zeros |
| AddrMangle.UnpackFields | libs/hbb_common/src/lib.rs:172-179 | the masks, subtractions and casts recover the fields, and no subtraction underflows |
| AddrMangle.DecodePacked | libs/hbb_common/src/lib.rs:157-180 | decoding a mangled IPv4 address gives it back for every 32-bit time |
| AddrMangle.DecodeEncode | libs/hbb_common/src/lib.rs:123-181 | decoding an encoded address never underflows, and gives `try_into_v4` of it if and only if that is IPv4 or has neither flow label nor scope |
| AddrMangle.EncodedLayout | libs/hbb_common/src/lib.rs:129-154 | the number in an encoded IPv4 address is (ip + tm) 2^49 + tm 2^17 + port + tm mod 2^16, without zeros at the end; an IPv6 address is followed by its little-endian port |
| AddrMangle.LengthTells | libs/hbb_common/src/lib.rs:157-181 | up to 16 bytes decode to IPv4, 18 bytes to IPv6, any other length to the default address |
| AddrMangle.Encode | libs/hbb_common/src/lib.rs:124-155 | the loop over trailing zeros computes the stripped bytes |
| AddrMangle.Decode | libs/hbb_common/src/lib.rs:157-180 | decoding of any byte string, with differences that wrap and the any-address case |
| Displays.ReorderedIsPermutation | libs/scrap/src/common/dxgi.rs:147-161 | the reordered list is a permutation of the dxgi displays |
| Displays.NamesPermuted | libs/scrap/src/common/dxgi.rs:147-161 | so are the names it carries |
| Displays.OrderedIffNoMiss | libs/scrap/src/common/dxgi.rs:147-161 | the k-th result carries the k-th gdi name for all k if and only if the unreachable branch is not taken |
| Displays.NoMissIffSameNames | libs/scrap/src/common/dxgi.rs:150-157 | that branch is not taken if and only if both lists carry the same names equally often |
| Displays.ReorderFollowsGdi | libs/scrap/src/common/dxgi.rs:136-164 | after the checks of the source the result is a permutation and follows the gdi names, for pairwise distinct names always |
| Displays.ChosenList | libs/scrap/src/common/dxgi.rs:121-144 | the gdi displays are returned exactly for want of dxgi ones; the dxgi displays come as they are if the lengths differ or a gdi name is missing |
| Displays.EqualNamesStayInOrder | libs/scrap/src/common/dxgi.rs:147-161 | displays of the same name stay in their dxgi order, whenever the unreachable branch is not taken |
| Displays.All | libs/scrap/src/common/dxgi.rs:121-164 | the two loops compute the choice between the lists and the reordering |

## Left out

- Sockets, proxies, TLS, timeouts, UDP and async scheduling; the end-of-stream and error latch of the framed transport.
- Key exchange (`Encrypt::decode`) and the strength of secretbox, zstd, brotli and md5; a compressor that fails returns an empty vector, which is excluded by `Lossless`.
- Overflow panics of debug builds: 64-bit counters and the differences in `AddrMangle::decode` wrap as in release builds.
- `config.rs`, `password_security.rs`, platform back ends, capture, encoders, plug-ins and the user interface.
- Directories, permissions, modification times, `remove_download_file`, directory listings: the disk is a map from names to bytes, and path strings are not normalised.
- SecureStream.Transmit: whole runs of two ends with one key; without a key the messages are the frames, and `RoundTrip` applies to them directly. Single calls of `SendRaw`, `SendBytes` and `Next` are covered with and without a key, framed and raw.
- Transfer.TransferJob.Read: `file_num` and the byte counters are unbounded; the 32-bit and 64-bit widths of the source are not reached by lists that fit in memory. Resuming at an offset is ignored, as it is in the source.
- Transfer.TransferJob.Write: a failed write reports itself at once, where the buffered file of the source may report it with the next operation.
- TransferHandshake.JobQueue.HandleReadJobs: the log is the state and the verdict it is made from, not its JSON text; the total size and the text of error messages are not modelled.
- TransferDelivery.TransferFidelity: blocks are delivered without loss and the receiver's file system does not fail, which `TransferFaults.dfy` treats; the source files do not change during the transfer.
- TransferDelivery.ReceiverInstalls: the receiver's file system does not fail, which `TransferFaults.dfy` treats.
- FuseServer.Server.ReadCheckFirst: the network request behind a read, and parsing of the peer's descriptors; attributes, statfs and stream ids.
- FuseServer.Server.Serve: runs with more than 2^64 opens, in which a binary search on an unsorted vector may find or miss a handle.
- FuseServer.HandleSafety: calls are atomic because every one goes through the mutex of the client; the mark for collection is never set anywhere in the source.
- Package.Read: the lossy conversion of paths and the executable name to UTF-8; the digest is any 32 bytes.
- Recorder.EventsOverRuns: two files made in one millisecond have the same name, and the second one overwrites the first.
- Recorder.Recorder.Check: what opening does inside the webm and mp4 muxers; audio; the real clock.
- Negotiation.Encoder.Update: `set_fallback` and the bitrate functions; which encoders exist is an answer of the host.
- Displays.All: how the displays are found.
