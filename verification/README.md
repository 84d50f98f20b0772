# Verified model of sys-agent's stateful cores

This project models the parts of sys-agent (a Nintendo Switch background agent) and of its Python client in
which a wrong step would lose data, miss a result or act twice, and proves what those parts promise:

- the search snapshot store, its pager, its refinement pass and its commit (`Store*.dfy`, `SearchCompare.dfy`,
  `Crc.dfy`, `Files.dfy`);
- the conversion of an upload that outgrows 4 GiB (`FtpVfs.dfy`);
- the DC-only JPEG decoder, against an encoder written from ITU-T T.81 (`Jpeg*.dfy`);
- the expansion of click sequences and the walker that executes them (`Sequence*.dfy`);
- the chunked exact memory search (`SearchScan.dfy`, `SearchManager.dfy`);
- the pairing of IPC requests and responses (`TraceIpc.dfy`, `TraceDecoder.dfy`);
- hardware watchpoints on all cores (`HwBp.dfy`);
- AES-128 block decryption (`GaloisField.dfy`, `FieldPolynomials.dfy`, `Aes.dfy`).

`dafny verify dfyconfig.toml` checks everything.

## How it is modelled

Code that changes state step by step is a class with the same fields, or a method over an array, proved against
functions that say what the result means; the lemmas are about those functions. Calls into the operating system are
methods that may fail. A ghost flag `faulted` records a failure of a call that could have succeeded, so a contract can
say both what success means and that nothing else makes the operation fail; the ghost counters `refusals` (uploads) and
`failures` (watchpoints) let it also say what a single failing call leads to. Where power may be cut, a ghost `history`
holds the state of the disk after every call, and the contract speaks about each entry. C integers are unbounded
numbers where the proof shows that no sum leaves the machine type, and are reduced modulo 2^64 where one can
(`AddressOf` in the snapshot store, `WrappedEnd` in the search, `estimatedMs` in the expander, the end of a
watchpoint). Bytes are numbers below 256, and bit-vectors in the AES modules.

## What the proofs found

- The time estimate of a click sequence and the time slept differ on some `W` tokens, although sequence_repeat.c says it
  follows the walker's convention: a signed wait such as `W+5` is counted as 0 ms and slept as 5 ms, and an
  overflowing wait is counted as 2^64 - 1 ms and not slept at all. `SequenceWait.WaitAgrees` gives the exact condition
  for one wait, and `SequenceWalk.EstimateIsTimeSlept` the exact difference for a whole sequence.
- In ftp_vfs_write the second attempt to convert, after a refused allocation, can never be reached for an upload that was
  opened by STOR; the proof of `FtpVfs.Upload.Write` asserts it.
- ftp_vfs_close does not look at the result of the final trim. `FtpVfs.Upload.Close` states exactly when the file is
  the uploaded bytes: the trim worked or nothing had been allocated ahead.
- A pair with a correlation key and the `thread-fifo` fallback can use one request in two transactions
  (`TraceIpc.FallbackUsesTwice`); no other pair can (`TraceIpc.NoRequestTwice`). A request that was matched by its key
  but came from an event without a thread is also counted as unmatched (`TraceIpc.ThreadlessCountsTwice`); whatever
  responses follow, the counts add up exactly when every request with a key has a thread
  (`TraceIpc.ConservedIffThreaded`).
- searchPlanMapping refuses a mapping that ends exactly at the end of the 64-bit address space, because the sum wraps
  to zero (`SearchScan.PlanIsSound`).
- searchStoreReadAddresses, unlike searchStoreReaderNext, does not compare a payload's size with the block's counts. A
  block that passes all its checks can have a sparse payload or a bitmap shorter than the loop reads
  (`StorePager.ShortSparseBlock`, `StorePager.ShortBitmapBlock`). The model then stops with the outcome `Overran`;
  `StorePager.Page.TakeSparse` and `StorePager.Page.TakeDense` say exactly for which headers and payloads. No snapshot
  of the writer, and no block that ReaderNext accepts (`StorePager.AcceptedPayloadSuffices`), is among them.
- searchStoreWriterAddBlock stores blocks that searchStoreReaderNext refuses: exactly those with a payload over 0x50000
  bytes (`StoreReader.BlockInStore`). No caller hands in more than 0x40000 value bytes, and then it cannot happen
  (`StoreFormat.PayloadSize`).
- searchStoreCommit fails when it is told wrongly whether a snapshot exists, since the console's rename neither replaces
  a file nor finds a missing one; the backup is gone by then (`StoreCommit.Directory.Commit`).
- jpeg_dc.h says that a refused image is left with blocksW and blocksH 0. jpegDecodeScan sets them before the scan can
  fail: after a refusal they are nonzero exactly when the scan was reached and the image is small enough
  (`JpegScan.ScanDecoder.DecodeScan`); `complete` is then false.

## Model

| member | source | states |
|---|---|---|
| Crc.ComputeCrc32 | sys-agent/source/search_store.c:30-40 | the two loops compute the checksum of the register model, the reference for every lemma below |
| Crc.TapsSpellTheConstant | sys-agent/source/search_store.c:37 | the taps of the register are the bits of 0xEDB88320 |
| Crc.TableStep | sys-agent/source/search_store.c:34-38 | eight bit steps are the one table step of section 8 of RFC 1952 |
| Crc.FeedInjective | sys-agent/source/search_store.c:30-40 | equal bytes after a difference cannot hide it: different registers stay different |
| Crc.FeedIsOneXor | sys-agent/source/search_store.c:30-40 | up to four bytes enter the register as one exclusive-or |
| Crc.DamageIsDetected | sys-agent/source/search_store.c:30-40 | strings of one length that differ only within four consecutive bytes have equal checksums if and only if they are equal |
| StoreFormat.HeaderRoundTrip | sys-agent/source/search_store.h:29-40 | the header record reads back field by field |
| StoreFormat.BlockHeaderRoundTrip | sys-agent/source/search_store.h:42-53 | the block header record reads back field by field |
| StoreFormat.EntryRoundTrip | sys-agent/source/search_store.h:55-61 | the index record reads back field by field |
| StoreFormat.CheapestEncoding | sys-agent/source/search_store.c:86-95 | no encoding that could hold the block is shorter than the chosen one; the bare values are chosen exactly when nothing was filtered out |
| StoreFormat.PayloadSize | sys-agent/source/search_store.c:86-99 | a block of at most 0x40000 value bytes can be stored, and its payload never exceeds the limit ReaderNext enforces |
| StoreWriter.FillSparse | sys-agent/source/search_store.c:115-126 | the sparse payload lists slot and value of exactly the candidates, ascending |
| StoreWriter.BuildPayload | sys-agent/source/search_store.c:101-126 | whichever encoding was chosen, the buffer holds that encoding of the block |
| StoreWriter.Writer.Open | sys-agent/source/search_store.c:49-68 | success leaves a file with just the first header; failure closes it and means a failing call |
| StoreWriter.Writer.AddBlock | sys-agent/source/search_store.c:70-147 | success appends the block, or nothing when no slot is a candidate; failure marks the writer and keeps the blocks so far, and means an earlier failure, an empty block, a failing call or a payload of 2^32 bytes or more |
| StoreWriter.Writer.WriteIndex | sys-agent/source/search_store.c:149-172 | the index read back from the blocks on disk holds offset, running total, base and counts of every block |
| StoreWriter.Writer.Finish | sys-agent/source/search_store.c:174-190 | success means no call failed and the file is byte for byte the snapshot of the blocks added; failure removes it and means an earlier failure or a failing call |
| StoreReader.Reader.Open | sys-agent/source/search_store.c:201-236 | accepts exactly the files that pass every check, unless a call fails |
| StoreReader.Reader.Next | sys-agent/source/search_store.c:245-312 | accepts exactly the blocks that pass every check and have an acceptable payload, unless a call fails or a buffer is too small; the buffers then hold what the payload says, whoever wrote it: no mask bit behind the last slot is set for the bare values, and for a sparse payload exactly the named slots are set and all other values are zero; on a finished snapshot the next block comes back, unless its payload is over the limit: its header, its mask below the slot count, and the value of every candidate |
| StoreReader.DecodeSparse | sys-agent/source/search_store.c:285-308 | accepted if and only if every entry names a slot of the block behind the one before; then exactly the named slots are marked, with the values of their entries, and every other value is zero; a genuine payload restores the mask and the candidates' values |
| StoreReader.FinishedFileAccepted | sys-agent/source/search_store.c:174-236 | every finished snapshot passes the checks of ReaderOpen |
| StoreReader.OpenedAtStart | sys-agent/source/search_store.c:201-236 | a reader just opened on a finished snapshot will yield its blocks from the first on |
| StoreReader.BlockInStore | sys-agent/source/search_store.c:70-147 | every block of a finished snapshot lies where the index says, and passes the reader's checks if and only if its payload is within the limit |
| StoreReader.AbandonedFileRejected | sys-agent/source/search_store.c:59-67 | a file that still has its first header is rejected, whatever follows the header |
| StoreReader.DamagedHeaderRejected | sys-agent/source/search_store.c:201-222 | after a change within four consecutive bytes of the header, in its checksum or beside it, the file is accepted if and only if nothing changed |
| StoreReader.DamagedPayloadRejected | sys-agent/source/search_store.c:261-266 | after a change within four consecutive bytes of a payload the block is accepted if and only if nothing changed |
| StoreRoundTrip.WriteStore | sys-agent/source/search_store.c:49-190 | any sequence of AddBlock calls between Open and Finish leaves the snapshot of its blocks; only a failing call, an empty block or one larger than a chunk can prevent it |
| StoreRoundTrip.ReadStore | sys-agent/source/search_store.c:201-312 | from a finished snapshot every block comes back, in order, whatever its encoding; only a failing call or a block too large for the reader or its buffers prevents it |
| StoreRoundTrip.StoredKeepsMarked | sys-agent/source/search_store.c:78-84 | dropping the blocks without a candidate loses no candidate |
| StoreRoundTrip.SameCandidates | sys-agent/source/search_store.c:268-310 | blocks that agree below the slot count and at the candidates denote the same addresses and values |
| StoreRoundTrip.RoundTrip | sys-agent/source/search_store.c:49-312 | writing and reading back yields address and value of exactly the candidates handed in, in order |
| StorePager.FindFirst | sys-agent/source/search_store.c:326-344 | for every file, the loop ends where the search over the index entries ends, or fails where it meets an entry that claims too much |
| StorePager.SearchFinds | sys-agent/source/search_store.c:326-344 | on a finished snapshot the search ends at the first block that reaches past the offset |
| StorePager.FillPage | sys-agent/source/search_store.c:326-413 | for every file, the page is what the entries from the found one on add to it, unless a call fails |
| StorePager.ReadAddresses | sys-agent/source/search_store.c:314-414 | for every file, outcome, total and page are those of PageOf, unless a call fails |
| StorePager.PageOfStore | sys-agent/source/search_store.c:314-414 | the page of a finished snapshot whose blocks the reader accepts is [offset, offset + count) of its address list, its total is the length of that list, and no read leaves a payload |
| StorePager.OverrunNeedsShortBlock | sys-agent/source/search_store.c:314-414 | a read past a payload means an accepted file with an accepted block too short for its counts |
| StorePager.OneBlockPage | sys-agent/source/search_store.c:314-414 | on a snapshot of one block whose payload has any length, every page that reaches the block is what that payload gives, read past its end or not |
| StorePager.Page.TakeSparse | sys-agent/source/search_store.c:384-400 | for every header and payload: a read past the payload if and only if some candidate behind in-order entries lies past its end; success if and only if all entries are good, and then the page grows by the addresses they name |
| StorePager.Page.TakeDense | sys-agent/source/search_store.c:401-409 | for every header and payload: a read past a bitmap if and only if the page is not full behind its last bit; otherwise the page grows by the marked slots |
| StorePager.PickedIsClip | sys-agent/source/search_store.c:383-409 | while the 64-bit ordinals do not wrap, what one block adds is a slice of its address list |
| StorePager.GenuinePayload | sys-agent/source/search_store.c:383-409 | a payload the writer produced is never read past its end and adds the block's own slice |
| StorePager.AcceptedPayloadSuffices | sys-agent/source/search_store.c:275-306 | what ReaderNext accepts is long enough for the pager |
| StorePager.ShortSparseBlock | sys-agent/source/search_store.c:384-391 | a whole file that passes every check and whose sparse payload is read past its end exactly by the pages that reach the block |
| StorePager.ShortBitmapBlock | sys-agent/source/search_store.c:402-405 | a whole file that passes every check and whose bitmap is read past its end exactly by the pages that reach the block |
| StorePager.PagesJoin | sys-agent/source/search_store.c:314-414 | consecutive pages join without gap or repeat |
| StorePager.AllPages | sys-agent/source/search_store.c:314-414 | the pages of one size, one after the other, are the whole list |
| SearchCompare.DecodeUnsigned | sys-agent/source/search_compare.c:4-10 | the loop reads a little-endian number |
| SearchCompare.FilterUnsigned | sys-agent/source/search_compare.c:12-30 | the output mask marks exactly the candidates whose two values are in the relation the mode names, and the result is their number |
| SearchCompare.ModesPartition | sys-agent/source/search_compare.c:32-45 | exactly one of unchanged, increased and decreased holds, and changed is increased or decreased |
| StoreRefine.RefineSnapshot | sys-agent/source/unknown_search.c:376-497 | success leaves a finished snapshot in which an address is a candidate if and only if it was one whose stored and current values are in the relation the mode names, with the current value as the next baseline; it ends cancelled if and only if that was requested; otherwise, without a failing file call, it succeeds if and only if every block can be sampled; a corrupt session is reported only for a failing read or a block too large, an I/O error only for a failing write or unreadable memory |
| StoreRefine.RefinedExactly | sys-agent/source/search_compare.c:32-45 | refinement of any candidate list: who stays, for each of the five modes, and with which value |
| StoreRefine.RefinedInOrder | sys-agent/source/unknown_search.c:425-468 | the survivors keep their order and none is doubled |
| StoreRefine.RefinedAddresses | sys-agent/source/unknown_search.c:376-497 | the new snapshot's address list is the survivors' addresses, and the count in its header is their number |
| StoreRefine.RefinementsPartition | sys-agent/source/search_compare.c:32-45 | unchanged, increased and decreased share out the candidates of every list |
| StoreRefine.CandidateAddresses | sys-agent/source/search_store.c:314-414 | the addresses of the candidate list are the list the pager serves |
| StoreCommit.Directory.Commit | sys-agent/source/search_store.c:416-430 | success puts the new snapshot at current; after every single call the old snapshot is at current or backup or the new one at current; without a failing call it succeeds exactly when there is a new snapshot and the old one was announced rightly |
| FtpVfs.RoundUp | sys-agent/source/ftp_vfs_sd.c:91-93 | the least multiple of 1 MiB that is not below the position |
| FtpVfs.StageIsWhole | sys-agent/source/ftp_vfs_sd.c:196-309 | in each of the five stages the upload is whole at exactly one of the three names |
| FtpVfs.Upload.Undo | sys-agent/source/ftp_vfs_sd.c:198-209 | every disk on the way back is one of the stages; without a refused call the plain file is back and nothing is left over |
| FtpVfs.Upload.MoveAside | sys-agent/source/ftp_vfs_sd.c:240-266 | clearing a leftover temporary file never removes the upload; it fails only when a call fails or a directory has the temporary name |
| FtpVfs.Upload.BuildConcatenation | sys-agent/source/ftp_vfs_sd.c:268-291 | directory, part and attribute in order; a single refused call is undone, and nothing is left over |
| FtpVfs.Upload.Convert | sys-agent/source/ftp_vfs_sd.c:227-309 | whichever calls fail and wherever power is cut, the bytes are whole at exactly one name; success keeps the logical content; a single refused call, whichever it is, leaves the plain file open again and nothing but a leftover removed, or the finished concatenation file |
| FtpVfs.Upload.Reopen | sys-agent/source/ftp_vfs_sd.c:214-224 | the offset stays, and the allocation is read back or kept |
| FtpVfs.Upload.Allocate | sys-agent/source/ftp_vfs_sd.c:315-328 | while the file is plain every allocation is a multiple of 1 MiB and at most the plain limit |
| FtpVfs.Upload.WriteChunk | sys-agent/source/ftp_vfs_sd.c:315-336 | success appends the buffer to the log, failure leaves it; every disk on the way holds the bytes received before |
| FtpVfs.Upload.Open | sys-agent/source/ftp_vfs_sd.c:389-441 | a STOR starts with an empty file; only a failing delete leaves a concatenation file behind; a directory is refused |
| FtpVfs.Upload.PassPlainLimit | sys-agent/source/ftp_vfs_sd.c:471-476 | before the write that would pass the limit the file becomes a concatenation file with the same content; every disk on the way holds the bytes received before |
| FtpVfs.Upload.Write | sys-agent/source/ftp_vfs_sd.c:454-490 | success appends the whole buffer, wherever the conversion falls; whichever calls fail and wherever power is cut, the bytes received before are whole at exactly one of the three names; it terminates and fails only when a call fails, a directory has the temporary name or the card is full; the file is converted exactly when its size rounded up would pass the plain limit |
| FtpVfs.Upload.Close | sys-agent/source/ftp_vfs_sd.c:515-528 | the file is exactly the log if and only if the trim worked or nothing was allocated ahead |
| FtpVfs.Store | sys-agent/source/ftp_vfs_sd.c:389-528 | a STOR that succeeds leaves the concatenation of the buffers at the path, followed by more only if the final trim failed with something allocated ahead; one that fails keeps the buffers accepted so far whole at one of the three names; the path is a concatenation file exactly when the total, rounded up, passes the plain limit |
| JpegHuffman.CanonicalCode | sys-agent/source/jpeg_dc.c:147-162 | the codes the decoder counts up are those of Figures C.1 and C.2 of ITU-T T.81 |
| JpegHuffman.IndexInRange | sys-agent/source/jpeg_dc.c:291-309 | for any counts and any bits, the index used is below the number of symbols |
| JpegHuffman.DecodeCodeword | sys-agent/source/jpeg_dc.c:291-309 | a codeword followed by any bits decodes to its own index and consumes exactly itself |
| JpegHuffman.PrefixFree | sys-agent/source/jpeg_dc.c:147-162 | no codeword of a code is the beginning of another |
| JpegDecoder.DefineTable | sys-agent/source/jpeg_dc.c:120-166 | the table is accepted exactly when it has at most 256 symbols, and its rows are the first code, last code and index of every length |
| JpegDecoder.BitReader.ReadBit | sys-agent/source/jpeg_dc.c:257-277 | the next bit behind byte stuffing, or none at a marker or the end |
| JpegDecoder.BitReader.ReadBits | sys-agent/source/jpeg_dc.c:279-289 | the next bits as a number, failing exactly when too few are left |
| JpegDecoder.BitReader.DecodeHuffman | sys-agent/source/jpeg_dc.c:291-309 | the loop over the table returns what decoding the bits ahead returns, and leaves the same bits |
| JpegBlock.ExtendInverts | sys-agent/source/jpeg_dc.c:311-321 | extending the additional bits of a difference gives the difference back |
| JpegBlock.SkipAc | sys-agent/source/jpeg_dc.c:386-406 | on any bits, consumes the AC codewords and additional bits of a block or fails where one is missing; on encoded coefficients exactly those, with ZRL and with or without EOB |
| JpegStream.UnpackPack | sys-agent/source/jpeg_dc.c:257-277 | packed bits read back, followed by fewer than eight ones |
| JpegScan.ProductFits | sys-agent/source/jpeg_dc.c:371-383 | the DC value of a coded block times its quantiser stays within 32 bits |
| JpegScan.ScanDecoder.DecodeUnit | sys-agent/source/jpeg_dc.c:359-408 | one block: difference and AC consumed, whatever the bits are, prediction updated and, for encoded blocks, within 12 bits, level stored for luma |
| JpegScan.ScanDecoder.TakeRestart | sys-agent/source/jpeg_dc.c:340-353 | succeeds exactly when fewer than eight bits are left in front of a restart marker; the reader realigns and the predictions are reset |
| JpegScan.ScanDecoder.DecodeScan | sys-agent/source/jpeg_dc.c:323-415 | success stores each block position of the image exactly once and no other; when the size is set, also after a refusal; on a scan produced by the encoder it succeeds and every level is that of the encoded DC coefficient, DC times step divided by 8, towards zero, plus 128, clamped; any other scan is refused exactly when a codeword, its additional bits or a due marker is missing |
| JpegScan.LevelMeans | sys-agent/source/jpeg_dc.c:371-377 | the level of every DC value and step, by inequalities |
| JpegScan.Geometry | sys-agent/source/jpeg_dc.c:196-217 | the MCUs are the fewest of the largest sampling factors that cover the image |
| JpegScan.BlocksCover | sys-agent/source/jpeg_dc.c:209-217 | the blocks of a component are the fewest that cover it at its sampling |
| SequenceExpand.ExpandState.EmitToken | sys-agent/source/sequence_repeat.c:92-110 | a token is appended if and only if the list still fits both limits |
| SequenceExpand.ExpandState.ExpandItems | sys-agent/source/sequence_repeat.c:140-225 | the recursive walk accepts exactly what has a meaning that fits, and emits that meaning; entered at nesting 0, the walk enters itself no more often than the limits on depth and tokens allow |
| SequenceExpand.Expand | sys-agent/source/sequence_repeat.c:227-266 | Ok exactly when the input has a meaning and it fits; the output is its comma-join; expandItems is entered at most 4 * 1025 + 1 times on every input |
| SequenceGrammar.AcceptedIffSentence | sys-agent/source/sequence_repeat.c:114-225 | a string has a meaning if and only if it spells a list of the grammar (counts 1 to 1000, nesting at most 4, no empty group) with that meaning, in which (X)*N is N copies of X |
| SequenceGrammar.ListParses | sys-agent/source/sequence_repeat.c:140-225 | spelling a list and expanding it gives its meaning |
| SequenceWalk.TokenNext | sys-agent/source/sequence_token.c:5-29 | returns the first piece of the remaining list and leaves the rest; at most one comma becomes a NUL |
| SequenceWalk.WalkerSeesTokens | sys-agent/source/sequence_token.c:5-29 | splitting the expanded text gives the expander's token list |
| SequenceWalk.ExpandingAgain | sys-agent/source/sequence_repeat.c:90-110 | expanding the output again changes nothing |
| SequenceWalk.ClickSequence | sys-agent/source/commands.c:1603-1688 | an uncancelled run performs the actions of the token list in order, a stick taking the next token as its y, and ends holding exactly the buttons whose last touch is a press; a cancelled run performs a beginning of the actions |
| SequenceWalk.ActionsSpelled | sys-agent/source/commands.c:1624-1677 | what each form of token does: press, release, wait, click, left and right stick with and without y |
| SequenceWalk.HeldIs | sys-agent/source/commands.c:1619-1687 | a button is held behind a token list if and only if the last token that touches it, stick values aside, is a press |
| SequenceWalk.EstimateIsTimeSlept | sys-agent/source/sequence_repeat.c:69-88 | the estimate is the time slept over the expanded text plus what the two readings of the waits differ by, which is nothing when every wait is plain; a value that a stick takes as its y is no wait |
| SequenceWalk.ExpandAndClick | sys-agent/source/commands.c:1603-1688 | a sequence expanded and walked to its end performs the meaning of its text, and is estimated at the time slept, modulo 2^64, when its waits are plain |
| SequenceWalk.RepeatsAct | sys-agent/source/commands.c:1603-1688 | a repeated token list acts like the list that many times, unless it leaves a stick waiting for its y |
| SequenceItems.DigitsSpelled | sys-agent/source/sequence_repeat.c:51-59 | in both bases the decimal digits stand for 0 to 9, the letters of either case for 10 to 15 in base 16 only, and nothing else is a digit |
| SequenceWait.WaitAgrees | sys-agent/source/util.c:85-108 | both readings of a `W` token agree if and only if its digits do not overflow and no leniency of strtoull (spaces, sign, second prefix) makes it a number |
| SequenceWait.SignedWaitDiffers | sys-agent/source/sequence_repeat.c:38-67 | `W+5` is estimated as 0 and slept as 5 |
| SequenceWait.OverflowingWaitDiffers | sys-agent/source/sequence_repeat.c:38-67 | every overflowing wait is estimated as 2^64 - 1 and slept as 0 |
| SearchScan.PlanIsSound | sys-agent/source/search_range.c:3-35 | every plan makes progress inside the range, a read stays inside its readable mapping, and the refusals are exactly three |
| SearchScan.ScanMappingFinds | sys-agent/source/search.c:172-207 | the carry reports exactly the aligned matches all of whose chunks were read, ascending |
| SearchScan.ScanIsNaive | sys-agent/source/search.c:131-217 | over a well-formed memory map the scan completes and reports an address if and only if the naive search does |
| SearchScan.ScanAscends | sys-agent/source/search.c:131-217 | no match is reported twice or outside the range |
| SearchScan.ScanIsShort | sys-agent/source/search.c:109-121 | there are no more matches than addresses, so the counter cannot wrap |
| SearchManager.Manager.Queue | sys-agent/source/search.c:274-323 | when a session is started or refused, what a new session resets, and that its id is the next one (0 is skipped) |
| SearchManager.Manager.RecordMatch | sys-agent/source/search.c:109-121 | the buffer keeps the first 65536 matches and the counters say so |
| SearchManager.Manager.SearchExact | sys-agent/source/search_match.c:17-42 | records exactly the aligned matches that begin in the buffer and fit into it, ascending |
| SearchManager.Manager.ScanOneMapping | sys-agent/source/search.c:172-207 | the inner loop records the matches of the mapping; a cancelled one a beginning of them |
| SearchManager.Manager.ReadAndSearch | sys-agent/source/search.c:177-205 | a chunk that was read is searched behind the carried bytes; one that was not ends the run and clears the carry |
| SearchManager.Manager.ScanRange | sys-agent/source/search.c:146-209 | the outer loop records the matches of every mapping in turn; an ended one a beginning of them |
| SearchManager.FoundIsNaive | sys-agent/source/search.c:131-217 | the complete record is exactly the naive search's result, and every beginning of it is ascending and holds only such matches |
| SearchManager.Manager.RunSearch | sys-agent/source/search.c:131-217 | Done over a well-formed memory map means an address is recorded if and only if the naive search reports it, ascending and once, with scanned the size of the range and readErrors the number of failed chunks; Cancelled only after a request; Error only for a failing call or a senseless map; at every end the record is a beginning of the scan |
| SearchManager.Manager.CopyResults | sys-agent/source/search.c:439-460 | a page of the stored results and nothing else of the buffer |
| TraceIpc.QueuesRefineList | client/sysagent.py:3173-3258 | without the fallback the two linked queue families do what one list of open requests would |
| TraceIpc.OldestFirst | client/sysagent.py:3205-3258 | a response takes the oldest unanswered request with its key, or is unmatched exactly when there is none |
| TraceIpc.CandidatesSpelled | client/sysagent.py:3205-3240 | which open requests a response may take: same session and targets, and same thread without a correlation, same key with one, same thread too when the profile asks for it |
| TraceIpc.TakenByKey | client/sysagent.py:3205-3240 | so every transaction of every trace joins a response with a request of its key and, where asked for, of its thread |
| TraceIpc.ResponsesAccounted | client/sysagent.py:3205-3258 | every response is one transaction or one unmatched response, for every configuration |
| TraceIpc.RequestsConserved | client/sysagent.py:3377-3378 | no request is in two transactions; requests are transactions plus unmatched requests, less the answered ones that could not be purged |
| TraceIpc.ConservedIffThreaded | client/sysagent.py:3228-3235 | for every trace: whatever responses follow, requests are transactions plus unmatched requests, if and only if every request with a key came from an event with a thread |
| TraceIpc.ThreadlessCountsTwice | client/sysagent.py:3228-3235 | a two-event trace whose one request is a transaction and an unmatched request |
| TraceIpc.FallbackUsesTwice | client/sysagent.py:3221-3258 | a trace on which key and fallback use one request twice |
| TraceIpc.NoRequestTwice | client/sysagent.py:3173-3258 | no trace uses a request twice if and only if no pair has both a key and the fallback |
| TraceDecoder.RemovePending | client/sysagent.py:2747-2752 | removes the first record with that identity |
| TraceDecoder.Decoder.OnRequest | client/sysagent.py:3182-3204 | the dictionaries after a request |
| TraceDecoder.Decoder.OnResponse | client/sysagent.py:3205-3258 | the dictionaries and the transaction after a response |
| TraceDecoder.Decoder.CountUnmatched | client/sysagent.py:3377-3378 | the sum over the queues, in whatever order they are visited |
| TraceDecoder.Decode | client/sysagent.py:3020-3378 | the whole pairing; without the fallback it reports what the single list does |
| HwBp.WatchesExactly | sys-agent/source/debug_hwbp.c:309-329 | for every accepted request the hardware watches exactly [address, address + size), for exactly the accesses asked for |
| HwBp.AcceptedExactly | sys-agent/source/debug_hwbp.c:291-307 | accepted are up to eight bytes of one doubleword, or an aligned power of two up to 2 GiB |
| HwBp.ControlFields | sys-agent/source/debug_hwbp.c:326-327 | every field of DBGWCR<n>_EL1 reads back from the control word |
| HwBp.PowerOfTwo | sys-agent/source/debug_hwbp.c:298-304 | the bit trick accepts only powers of two, and the population count is the exponent |
| HwBp.Machine.SetAllCores | sys-agent/source/debug_hwbp.c:40-84 | success programs every core; after a single failed call, whichever it is, the named registers are off on every core that was reached, and nothing else changed anywhere; the thread's core mask is set back unless it could not be read or set |
| HwBp.Machine.ClearAllCores | sys-agent/source/debug_hwbp.c:91-100 | success within three attempts leaves the register off on every core |
| HwBp.Machine.SetData | sys-agent/source/debug_hwbp.c:309-329 | on success all four cores watch exactly the requested bytes; after a single failed call no reached core watches them; an invalid request changes nothing |
| GaloisField.ComputeGfMul | client/sysagent.py:75-86 | the loop computes the product of the lemmas below |
| GaloisField.ProductAdds | client/sysagent.py:75-86 | the product distributes over addition on both sides |
| GaloisField.ProductAssociates | client/sysagent.py:75-86 | the product is associative |
| GaloisField.TimesXTime | client/sysagent.py:81-84 | doubling a factor, with its reduction, doubles the product |
| FieldPolynomials.GfMulIsFieldProduct | client/sysagent.py:75-86 | the product is that of the polynomials modulo x^8 + x^4 + x^3 + x + 1 (section 4.2 of FIPS 197) |
| Aes.SBoxIsAffineInverse | client/sysagent.py:51-68 | the table is the affine transformation of the multiplicative inverse (section 5.1.1 of FIPS 197) |
| Aes.InvSBoxInverts | client/sysagent.py:51-70 | the derived inverse table inverts the S-box on both sides |
| Aes.ShiftRowsMoves | client/sysagent.py:108-130 | which byte ShiftRows and its inverse put where (sections 5.1.2 and 5.3.1 of FIPS 197) |
| Aes.MixInverts | client/sysagent.py:120-125 | the coefficients of InvMixColumns undo those of MixColumns and conversely |
| Aes.ExpandKey | client/sysagent.py:89-105 | the loop computes the key schedule of section 5.2 of FIPS 197 |
| Aes.UnmixColumns | client/sysagent.py:120-125 | the column loop is InvMixColumns of section 5.3.3 of FIPS 197 |
| Aes.DecryptBlock | client/sysagent.py:108-130 | the result is the one block that Cipher (section 5.1 of FIPS 197) turns into the input; wrong lengths are refused |
| Aes.InvCipherInverts | client/sysagent.py:108-130 | decrypting what Cipher produced gives the block back, for every key |
| Aes.CipherInverts | client/sysagent.py:108-130 | enciphering what was decrypted gives the input back |

## Left out

- SequenceExpand.Expand: which of the five refusals is reported, and the error index, are not characterised; only that
  a refusal is reported exactly when it must be.
- SequenceWalk.EstimateIsTimeSlept: sums of milliseconds, before the multiplication by 1e6 and the conversion to a
  signed 64-bit number of nanoseconds.
- SequenceWalk.ClickSequence: button names and stick values stay text; parsing and clamping them is not modelled, and
  the shared controller state is the log of actions.
- FtpVfs.Store: a STOR over a concatenation file whose deletion failed ends unsuccessfully in the model; the source
  goes on writing into that file.
- FtpVfs.Upload: the table g_vfsState is taken to have a slot for the file, paths are short enough for the added
  suffix, and seek, append mode and reading are not modelled.
- JpegScan.ScanDecoder.DecodeScan: the segment parser in front of the scan (quantisers, frame and scan headers) is
  replaced by its result; table and quantiser ids are valid. A scan of one component has sampling factors 1, as in
  the interleaved order of section A.2.3 of ITU-T T.81.
- StoreRefine.RefineSnapshot: sampling reads unchanging memory; allocating the buffers, pausing the process, checking
  that it is still the current one and the session's status are left out.
- StoreWriter.Writer.AddBlock: slot counts from 2^32 - 7 on, for which the 32-bit sum in the size of the mask wraps.
- SearchManager.Manager.RunSearch: memory and its map do not change during the scan, and the source's mutex and
  sleeping are left out; a cancel request may arrive at any moment.
- TraceIpc.QueuesRefineList: the decoding of the snapshots, the correlation expressions and the fields a transaction
  copies from its records are inputs; only the pairing is modelled.
- HwBp.WatchesExactly: the enable bits the kernel adds to the control word and sign extension of high addresses.
- Aes.DecryptBlock: the reading of keys and tickets around it.
- searchStoreEstimateMaximum, searchStoreHasFreeSpace, searchStorePrepareDirectory and searchStoreClearDirectory are
  arithmetic and file housekeeping without a property of their own.
- searchEncodeUnsigned, the hexadecimal pattern parser and the region resolution in front of a search.
- Threads, sockets, the FTP control connection, the controller, the screen classifier, the boot unlock and the
  command-line client.
