# Verified models of the HaLow driver repository

Dafny models of the parts of the repository that carry algorithms: the MBIN/BCF container tools and
the target code that reads their files, bulk SDIO access through a 64 KiB window, the lock-free scan
policies, the per-peer recovery cooldown, S1G channel derivation and region switching, AES-CBC over a
block cipher, and the DMA segmentation of the SPI master. `dafny verify dfyconfig.toml` checks
everything.

Code that changes state is modelled by methods and classes with the fields and loops of the source;
each is proved against a specification function, and what the source promises is proved about that
function. Protocols between threads are state machines over atomic steps, and their theorems range
over every interleaving and every run. 32-bit words are modelled with their wrap-around.

| file | models |
|---|---|
| `Words.dfy`, `Bytes.dfy`, `Tlv.dfy` | 32-bit words; little-endian fields; the TLV stream, its reader and its round trips |
| `MbinCompress.dfy`, `MbinMeaning.dfy` | the segment compressor; what a run preserves |
| `FwValidator.dfy` | the streaming firmware/BCF check behind a reader that may return less than asked |
| `BcfRegions.dfy`, `BcfTable.dfy` | regions of a BCF; the flattened table and its lookup |
| `SdioWindow.dfy` | bulk and register access through the window |
| `ScanDefer.dfy`, `ScanRequest.dfy` | the compare-and-swap hold deadline; the busy flag |
| `PeerRecovery.dfy` | the cooldown table and its eviction |
| `Channels.dfy`, `RegDomain.dfy` | channel derivation; start-up, SET and GET of the region |
| `AesCbc.dfy` | CBC in place, its inverse and its splits |
| `SpiTransfer.dfy` | DMA segments against single frames; frame counting |

## Assumptions

- zlib is a pair of functions; the theorems about images assume that inflating a deflated string gives
  it back. The loader is not in the repository: to load a file is to write each segment's bytes at its
  address, in stream order, firmware and software apart, refusing malformed segments. Load addresses
  are unbounded in the images.
- A chunk address that does not fit in 32 bits raises `struct.pack`'s error (`AddressRange`).
- The block cipher is any function on blocks with a status; the CBC inverses assume that it is
  invertible. Input and output are one buffer or two that do not overlap.
- A device byte moved by a successful CMD53 is the byte at the window base plus the offset. A failed
  command may leave anything in its own range or register. A read delivers its bytes, except that the
  first CMD53 after the window was placed may repeat its first word. The HAL's error values are
  nominal; only that they are not 0 matters.
- `ScanDefer`: a run respects bounds `hold` on durations, `lag` on the age of a time stamp while its call
  runs, and `idle` on how long ago the deadline may have expired while a call runs. For which bounds
  the promises hold is proved exactly (`HeldExactly`, `MonotoneExactly`).
- `ScanRequest`: one completion per queued request and none for a refused one; what a completion of a
  refused one does is shown (`CompletionAfterRefusalBreaks`).
- `PeerRecovery`: one constant cooldown, event times that do not go back; where a theorem compares
  stamps it says that they are within 2^31 of each other (`Live`).
- `Channels`: field widths and the value -1 of `MMWLAN_SKIP_OP_CLASS_CHECK` come from a header that is
  not part of this model; centre frequencies fit a signed 32-bit integer, and a 32-bit sum that
  overflows wraps.
- `BcfTable`: CMake's capture of the printed region list drops NUL bytes and the carriage return of a
  line end, and strips white space from its end.
- `RegDomain`: a regulatory lookup returns no list or one carrying the requested code; what the
  library calls return is arbitrary.
- `SpiTransfer`: the transfer context advances by the given frames and moves to the next non-empty
  buffer. Transmit data does not overlap receive memory. The transmit channel runs some number `lead`
  of frames ahead of the receive channel. The slave is any function of the frames sent so far.

## Where the code does not do what it says

- The bulk SDIO loops leave the caller's buffer for a range that ends in the last 64 KiB of the
  address space but not exactly at its end (`SdioWindow.StaysInBufferIffSafe`, `LastWindowOverrun`).
- `sdio_spi_read_multi_byte` ignores what its data commands return (`SdioWindow.IgnoredReadError`), and
  block commands always name 512-byte blocks (`SdioWindow.BlockPartMatches`).
- The firmware check does not look at an empty magic value (`FwValidator.EmptyMagicPasses`), and for a
  magic value of more than four bytes its verdict depends on how reads are split
  (`FwValidator.SplitIndependence`).
- DMA segments without buffers in either direction share one dummy word, so that received frames are
  sent where NOPs are promised (`SpiTransfer.DmaMatchesPolled`). The polled loop exchanges one frame
  for an empty transfer (`SpiTransfer.Context.TransceivePolled`).
- The comment of `calc_primary_chan_idx` promises -1 for whatever cannot be resolved; for a missing
  list the code returns -ENOENT, and the model follows it.
- A repeated channel number can make the derivation fail (`Channels.RepeatedNumberFails`,
  `Channels.RepeatedPrimaryFails`) or succeed with values that validation rejects
  (`Channels.RepeatedNumberMisleads`); `Channels.Unambiguous` is the exact condition.
- Short region payloads shift the region table, so that the lookup refuses codes the BCF names and
  accepts others (`BcfRegions.ShortPayloadShifts`), or reads behind the table
  (`BcfRegions.HalfEntryReadsOn`); a last region that ends in white space loses it
  (`BcfRegions.TrailingSpaceReadsOn`). The table is aligned exactly when every region payload before EOF
  starts with two bytes that pass through the build and the last region does not end in white space
  (`BcfRegions.AlignedStream`).
- A hold can be lost when a call runs more than 2^31 ticks after the deadline expired and another call's
  stamp is older (`ScanDefer.StaleDeadlineLosesHold`), or when duration and age of a stamp reach 2^31
  together (`ScanDefer.OverwritingRun`).
- A peer that was silent for 2^31 ms after its cooldown is refused again, for 2^31 out of every 2^32 ms
  (`PeerRecovery.CooldownRespected`).

## Model

| member | source | states |
|---|---|---|
| `TlvStream.ReadOfEncode` | scripts/compress-mbin.py:46-54 | reading a written TLV, whatever follows it, gives that TLV and what follows |
| `TlvStream.EncodeOfRead` | scripts/compress-mbin.py:83-102 | writing a TLV that was read gives back the bytes it was read from |
| `TlvStream.ParseOfEncode` | scripts/compress-mbin.py:83-102 | reading a written stream gives the TLVs that were written, for every stream of TLVs of at most 65535 bytes |
| `TlvStream.EncodeOfParse` | scripts/compress-mbin.py:83-102 | writing the TLVs of any accepted stream reproduces it byte for byte |
| `TlvStream.TlvAt` | scripts/compress-mbin.py:51-52 | where header and value of one TLV stand inside a longer stream |
| `Bytes.UnpackIsLittleEndian` | scripts/compress-mbin.py:93-109 | two- and four-byte fields are the little-endian value of their bytes |
| `TlvStream.TlvReader.Read` | scripts/compress-mbin.py:87-94 | a file read yields at most n bytes, fewer only at the end, and moves the position past them |
| `TlvStream.TlvReader.Next` | scripts/compress-mbin.py:86-102 | one resumption of the generator: the next TLV, the end, or one of the two truncation errors, with the position after the TLV |
| `MbinCompress.MbinWriter.AddTlv` | scripts/compress-mbin.py:46-54 | a TLV is appended iff its value has at most 65535 bytes; the file stays the encoding of what was written and the TLV counter its length |
| `MbinCompress.MbinWriter.AddChunk` | scripts/compress-mbin.py:57-70 | one chunk: the deflated TLV is appended, or the address or size error is raised; the counters stay balanced |
| `MbinCompress.MbinWriter.AddCompressedSegment` | scripts/compress-mbin.py:56-70 | a segment is replaced by its chunk TLVs, or the first error among its chunks is raised after the chunks before it were written |
| `MbinCompress.MbinWriter.AddInput` | scripts/compress-mbin.py:142-168 | one TLV of the input is expanded or copied and the counter of its category goes up |
| `MbinCompress.CompressMbin` | scripts/compress-mbin.py:119-176 | the whole run: which exception, or the output file, whose TLV count is the sum of the three category counters and whose preserved counts are those of the input; and what the file holds after an exception |
| `MbinMeaning.Accepted` | scripts/compress-mbin.py:83-176 | a run succeeds iff the input is a complete stream, begins with a valid magic TLV, ends with its only EOF TLV and every segment expands; the output is then the expansion of each TLV in order |
| `MbinMeaning.OrderedMeaning` | scripts/compress-mbin.py:125-176 | the loop flags `saw_magic` and `saw_eof` accept exactly the streams with the magic first and the EOF last and nowhere else |
| `MbinMeaning.ChunkAt` | scripts/compress-mbin.py:57-61 | chunk i is the deflated slice from i * chunk size on, at the segment address plus that offset, and there is one exactly while the offset is inside the segment |
| `MbinMeaning.LoadChunks` | scripts/compress-mbin.py:56-70 | loading the chunks of a segment is loading the segment |
| `MbinMeaning.LoadExpandAll` | scripts/compress-mbin.py:132-168 | loading the expansion of any TLV list from any images is loading the list |
| `MbinMeaning.OutputParses` | scripts/compress-mbin.py:119-176 | the output file is a complete TLV stream, of exactly the TLVs written |
| `MbinMeaning.LeftoverParses` | scripts/compress-mbin.py:129-176 | whatever stops a run, the file it leaves is a complete TLV stream |
| `MbinMeaning.LeftoverOfSuccess` | scripts/compress-mbin.py:129-176 | a run that succeeds leaves exactly the TLVs it meant to write |
| `MbinMeaning.ImagesPreserved` | scripts/compress-mbin.py:119-176 | loading the output gives the same firmware and software images as loading the input, including whether loading succeeds |
| `MbinMeaning.OthersPreserved` | scripts/compress-mbin.py:160-168 | all TLVs that are not segments survive unchanged and in order |
| `MbinMeaning.OutputWellFormed` | scripts/compress-mbin.py:119-176 | the output is itself an MBIN stream, begins with the magic TLV of the input and holds no plain segment |
| `MbinMeaning.CompressIdempotent` | scripts/compress-mbin.py:119-176 | compressing an output again, with any chunk size, reproduces it byte for byte |
| `MbinMeaning.MagicMeaning` | scripts/compress-mbin.py:105-116 | which TLV is which kind of magic, in bytes: "MMFW", "MMSW", "MMBC", and which error the others are |
| `MbinMeaning.AcceptsMagic` | scripts/compress-mbin.py:119-176 | a run over a magic and an EOF TLV, in bytes: accepted for exactly the three magics, refused as unknown for every other four bytes |
| `MbinMeaning.ChunkBytes` | scripts/compress-mbin.py:51-61 | the bytes of a compressed chunk: type, length, address and size of the chunk, least significant byte first, and the deflated data |
| `MbinMeaning.ExpandedKinds` | scripts/compress-mbin.py:142-168 | segment types 0x8001 and 0x8201 become 0x8002 and 0x8202 at the same address, other TLVs stay |
| `MbinMeaning.EveryInputStops` | scripts/compress-mbin.py:83-101 | every input splits into acceptable TLVs followed by one that raises, or by the end of the file: the cases of the next two rows are all there are |
| `MbinMeaning.ExceptionAtTlv` | scripts/compress-mbin.py:132-168 | which exception a TLV raises after acceptable ones, and in which order the checks come |
| `MbinMeaning.ExceptionAtEnd` | scripts/compress-mbin.py:87-99 | which exception the end of a file raises: half a header, too little data, no TLV or no EOF |
| `MbinMeaning.ExpandExceptions` | scripts/compress-mbin.py:142-159 | what expanding a segment raises: no address, or the error of its first chunk whose address or compressed size does not fit |
| `MbinMeaning.FirstBadExists` | scripts/compress-mbin.py:55-69 | a segment with a chunk that does not fit has a first one: the two cases of the row above are all there are |
| `MbinMeaning.LeftoverAtTlv` | scripts/compress-mbin.py:129-168 | what an exception at a TLV leaves in the file: the acceptable TLVs before it, expanded, and what its own expansion had written |
| `MbinMeaning.SegmentLeaves` | scripts/compress-mbin.py:55-69 | of a segment that its chunk i stops exactly the i chunks before that one are in the file |
| `MbinMeaning.LeftoverAtEnd` | scripts/compress-mbin.py:129-176 | what a file that ends too early leaves: its acceptable TLVs, expanded |
| `MbinMeaning.CountsMeaning` | scripts/compress-mbin.py:158-168 | the two preserved counters count the positions of compressed segments and of TLVs that are no segments |
| `FwValidator.ReadFile` | drivers/wifi/morsemicro/shims/mmhal_wlan_binaries.c:24-60 | the built-in readers return all that was asked for as far as the file goes, and null past the end, in spite of the subtraction that wraps |
| `FwValidator.OneShotConforms` | drivers/wifi/morsemicro/shims/mmhal_wlan_binaries.c:24-60 | the built-in readers keep the reader contract |
| `FwValidator.ReadValue` | samples/porting_assistant/src/test_wlan_fw_bcf.c:115-168 | the inner loop reads a value piece by piece, compares the first TLV with the magic and moves the 32-bit offset past the value |
| `FwValidator.ExecuteFwBcfTest` | samples/porting_assistant/src/test_wlan_fw_bcf.c:55-176 | the outer loop computes `Walk` for every reader, conforming or not, with its 32-bit offset, and terminates |
| `FwValidator.OneTlv` | samples/porting_assistant/src/test_wlan_fw_bcf.c:62-121 | for every reader: what one TLV of the check needs of its header and value, and where it goes on |
| `FwValidator.PayloadMeaning` | samples/porting_assistant/src/test_wlan_fw_bcf.c:115-168 | for every reader: a value is read completely iff accepted pieces make it up; otherwise the check fails or, in the first TLV, dereferences null |
| `FwValidator.TiledIsComplete` | samples/porting_assistant/src/test_wlan_fw_bcf.c:115-168 | any accepted pieces that make up the value complete it |
| `FwValidator.NullPieceIsRead` | samples/porting_assistant/src/test_wlan_fw_bcf.c:138-153 | a null piece of at least four bytes in the magic value is dereferenced |
| `FwValidator.LaterPayload` | samples/porting_assistant/src/test_wlan_fw_bcf.c:116-168 | after the first TLV a value is read completely iff it lies inside the file, however reads are split |
| `FwValidator.LaterTlvs` | samples/porting_assistant/src/test_wlan_fw_bcf.c:62-169 | after the first TLV the check passes iff complete TLVs lead to an EOF header within the limit of 50 |
| `FwValidator.FirstPayload` | samples/porting_assistant/src/test_wlan_fw_bcf.c:138-163 | the magic comparison passes only if the first four bytes of the value match; for values of at most four bytes this is independent of splitting |
| `FwValidator.WalkVerdict` | samples/porting_assistant/src/test_wlan_fw_bcf.c:55-176 | with a conforming reader the check never dereferences null, passes only sound files, and passes every sound file whose magic value has at most four bytes |
| `FwValidator.OneShotVerdict` | samples/porting_assistant/src/test_wlan_fw_bcf.c:55-176 | with the built-in readers the check passes exactly the sound files |
| `FwValidator.SplitReaderFails` | samples/porting_assistant/src/test_wlan_fw_bcf.c:140-148 | a conforming reader that delivers a magic value of more than four bytes in two pieces, the last of one byte, makes the check fail a sound file |
| `FwValidator.SplitIndependence` | samples/porting_assistant/src/test_wlan_fw_bcf.c:55-176 | the verdict is the same for all conforming readers iff the file is unsound or its magic value has at most four bytes |
| `FwValidator.SoundMeaning` | samples/porting_assistant/src/test_wlan_fw_bcf.c:55-176 | a file is sound iff it is a magic TLV, further complete TLVs and an EOF header among the first 50 headers |
| `FwValidator.EmptyMagicPasses` | samples/porting_assistant/src/test_wlan_fw_bcf.c:117-163 | a magic TLV without a value passes whatever magic number is expected |
| `FwValidator.CompressedFirmwarePasses` | samples/porting_assistant/src/test_wlan_fw_bcf.c:55-176 | every firmware the compressor writes with at most 50 TLVs passes through any conforming reader |
| `BcfRegions.BcfMagicMeaning` | scripts/bcf_info.py:42-49 | which files count as a BCF, in bytes: a magic TLV with value "MMBC" and behind it only zeros |
| `BcfRegions.ParseBcf` | scripts/bcf_info.py:36-69 | the two format errors, the decoding error, or the de-duplicated regions and the last chip payload of the walk |
| `BcfRegions.DedupMeaning` | scripts/bcf_info.py:67-69 | the de-duplicated list holds exactly the codes that occur, in the order of their first occurrences |
| `BcfRegions.ScanCollects` | scripts/bcf_info.py:54-65 | over complete TLVs the walk yields exactly the codes of the region TLVs before the first EOF and the last chip payload, or the decoding error |
| `BcfRegions.ScanTruncated` | scripts/bcf_info.py:54-63 | a last TLV with less data than its header says counts with what there is |
| `BcfRegions.LastChipMeaning` | scripts/bcf_info.py:62-65 | the chip is that of the last chip TLV before the first EOF |
| `BcfRegions.StripZerosMeaning` | scripts/bcf_info.py:63-63 | exactly the zeros at the end are stripped |
| `BcfRegions.CollectedIffNamed` | scripts/bcf_info.py:60-65 | a two-byte code is collected iff a region TLV before the first EOF names it |
| `BcfTable.FlattenedIsConcat` | components/morsemicro/firmware/CMakeLists.txt:192-192 | removing the semicolons of the printed list leaves the codes one after the other |
| `BcfTable.LineMeaning` | scripts/bcf_info.py:103-105 | the printed line in bytes: codes separated by semicolons, and a line feed |
| `BcfTable.TableIsConcat` | components/morsemicro/firmware/CMakeLists.txt:167-194 | for codes of visible characters the captured, stripped and flattened line is the codes one after the other |
| `BcfTable.SpaceIsStripped` | components/morsemicro/firmware/CMakeLists.txt:167-177 | a last region that ends in a space is left half in the table, as the capture strips trailing white space |
| `BcfTable.TableCount` | components/morsemicro/firmware/CMakeLists.txt:167-194 | the table holds at most the bytes of the list without its separators, and all of them iff the capture drops and strips nothing |
| `BcfTable.AlignedExactly` | components/morsemicro/firmware/CMakeLists.txt:167-194 | for all lists of codes of at most two bytes: entry i stands at place 2i of the table, and nothing else does, iff every code is two bytes without separator, NUL or line end and the last does not end in white space |
| `BcfTable.VisiblePairsAreIntact` | components/morsemicro/firmware/CMakeLists.txt:167-194 | lists of two visible characters each are aligned |
| `BcfRegions.AlignedStream` | scripts/bcf_info.py:60-69 | the table of a BCF is aligned iff every region payload before EOF starts with such a pair and the last region does not end in white space |
| `BcfTable.HalfEntryExactly` | drivers/wifi/morsemicro/net_mgmt.c:164-168 | for visible codes of at most two bytes the table ends in half an entry iff the number of one-byte codes is odd |
| `BcfRegions.BuildTable` | scripts/bcf_info.py:82-105 | for every file: none when it is too small, has no BCF magic, cannot be decoded or names no region, else its table |
| `BcfTable.BcfRegDne` | drivers/wifi/morsemicro/net_mgmt.c:162-171 | for tables of every length: 0 iff a whole entry is the code or the half entry at the end and the byte behind the array are; when it reads that byte |
| `BcfTable.LookupFindsListed` | drivers/wifi/morsemicro/net_mgmt.c:162-171 | in an aligned table the lookup finds exactly the listed codes and does not read past it |
| `BcfRegions.RegionLookup` | drivers/wifi/morsemicro/net_mgmt.c:162-171 | the whole chain from BCF to lookup, for every stream with the BCF magic; when the table is aligned: 0 iff a region TLV before EOF names the code |
| `BcfRegions.ShortPayloadShifts` | drivers/wifi/morsemicro/net_mgmt.c:162-171 | a BCF with two one-byte region payloads for which the chain refuses a code it names and accepts one it does not |
| `BcfRegions.HalfEntryReadsOn` | drivers/wifi/morsemicro/net_mgmt.c:164-168 | a BCF with one such payload for which the answer is that of the byte behind the table |
| `BcfRegions.TrailingSpaceReadsOn` | drivers/wifi/morsemicro/net_mgmt.c:164-168 | a BCF whose last region ends in a space, for which the answer is also that of the byte behind the table |
| `ScanDefer.GuardMeaning` | submodules/edgez-halow-mesh-prebuilt/include/edgez_scan_policy.h:19-20 | inside the 2^31 window the modular loop guard compares the unbounded times |
| `ScanDefer.HeldMeaning` | submodules/edgez-halow-mesh-prebuilt/include/edgez_scan_policy.h:24-28 | a scan is held iff a peer is authorised or, inside the window, the deadline is ahead of now; any authorised peer holds it without the window |
| `ScanDefer.TryMeaning` | submodules/edgez-halow-mesh-prebuilt/include/edgez_scan_policy.h:19-21 | one turn of the loop: done without storing, retried with the word found, or stored and done |
| `ScanDefer.NoAba` | submodules/edgez-halow-mesh-prebuilt/include/edgez_scan_policy.h:21-21 | an exchange that finds the expected word finds the very deadline that was loaded |
| `ScanDefer.StepMovesOn` | submodules/edgez-halow-mesh-prebuilt/include/edgez_scan_policy.h:14-22 | no step moves the deadline back, however long ago it expired |
| `ScanDefer.StepKeepsInv` | submodules/edgez-halow-mesh-prebuilt/include/edgez_scan_policy.h:14-22 | every step keeps what is known of each call: how old its view is, and that a finished call is covered by the deadline |
| `ScanDefer.DeadlineMonotone` | submodules/edgez-halow-mesh-prebuilt/include/edgez_scan_policy.h:12-22 | in every interleaving of any number of calls the deadline never decreases |
| `ScanDefer.HeldAfterReturn` | submodules/edgez-halow-mesh-prebuilt/include/edgez_scan_policy.h:12-28 | once a call has returned, its whole interval reads as held in every later state, up to the allowed age of a time stamp |
| `ScanDefer.HeldWithoutLag` | submodules/edgez-halow-mesh-prebuilt/include/edgez_scan_policy.h:12-28 | the same without any bound on how long ago the deadline expired, when stamps are never old |
| `ScanDefer.HeldExactly` | submodules/edgez-halow-mesh-prebuilt/include/edgez_scan_policy.h:12-28 | for all bounds: intervals are held in every run iff hold = 0, or hold + lag < 2^31 and either lag = 0 or idle <= 2^31 |
| `ScanDefer.MonotoneExactly` | submodules/edgez-halow-mesh-prebuilt/include/edgez_scan_policy.h:12-22 | for all bounds: the deadline never decreases in any run iff hold + lag < 2^31 |
| `ScanDefer.OverwritingRun` | submodules/edgez-halow-mesh-prebuilt/include/edgez_scan_policy.h:19-21 | a run in which a second call takes a deadline 2^31 ahead of its stamp for an expired one and replaces it |
| `ScanDefer.StaleDeadlineLosesHold` | submodules/edgez-halow-mesh-prebuilt/include/edgez_scan_policy.h:19-20 | for all bounds with hold and lag at least 1 and idle above 2^31: a run of seven steps after which an interval of a call that returned is not held |
| `ScanDefer.StepKeepsRetryInv` | submodules/edgez-halow-mesh-prebuilt/include/edgez_scan_policy.h:19-21 | each retry is paid for by an exchange of another call |
| `ScanDefer.RetriesBounded` | submodules/edgez-halow-mesh-prebuilt/include/edgez_scan_policy.h:19-21 | without spurious failures a call retries at most once per successful exchange of others since it began |
| `ScanDefer.StepReducesWork` | submodules/edgez-halow-mesh-prebuilt/include/edgez_scan_policy.h:14-22 | without spurious failures every step of a call strictly reduces the work left |
| `ScanDefer.CallsTerminate` | submodules/edgez-halow-mesh-prebuilt/include/edgez_scan_policy.h:14-22 | in every schedule, however time passes, n calls take at most n(n + 3) steps in all |
| `ScanRequest.StepKeepsExclusive` | submodules/edgez-halow-mesh-prebuilt/include/edgez_scan_request.h:12-21 | a step keeps that the flag is set exactly while one submission owns it, except exactly a late completion of a refused request while the flag is set |
| `ScanRequest.AtMostOneOutstanding` | submodules/edgez-halow-mesh-prebuilt/include/edgez_scan_request.h:10-21 | in every interleaving at most one request is outstanding, also when completion comes before `enqueue` returns, and an idle system has a clear flag |
| `ScanRequest.RejectedOnlyWhileOwned` | submodules/edgez-halow-mesh-prebuilt/include/edgez_scan_request.h:16-17 | the exchange turns a submitter away iff another submission owns the flag |
| `ScanRequest.CompletionAfterRefusalBreaks` | submodules/edgez-halow-mesh-prebuilt/include/edgez_scan_request.h:10-11 | a run whose one late completion of a refused request leaves two requests outstanding |
| `PeerRecovery.ShouldRecover` | submodules/edgez-halow-mesh-prebuilt/include/edgez_mesh_recovery_policy.h:38-75 | null pointers and frames outside the mesh, unprotected, not data or multicast are refused and change nothing; other frames of a transmitter without an entry are granted; a grant writes one entry with the transmitter and the end of its cooldown |
| `PeerRecovery.StrangerGranted` | submodules/edgez-halow-mesh-prebuilt/include/edgez_mesh_recovery_policy.h:49-68 | whoever has no valid entry finds a place, whatever the table |
| `PeerRecovery.SearchMeaning` | submodules/edgez-halow-mesh-prebuilt/include/edgez_mesh_recovery_policy.h:49-68 | the search returns the entry of the transmitter if it has one, else the first invalid entry, else one granted no later than any other; it refuses only a transmitter whose cooldown, as the code reads it, still runs |
| `PeerRecovery.StepKeepsSound` | submodules/edgez-halow-mesh-prebuilt/include/edgez_mesh_recovery_policy.h:38-75 | every event keeps the valid entries a prefix with distinct addresses, stamped with the end of their cooldown |
| `PeerRecovery.StepKeepsMostRecent` | submodules/edgez-halow-mesh-prebuilt/include/edgez_mesh_recovery_policy.h:49-74 | a grant keeps the table the most recently granted transmitters |
| `PeerRecovery.EvictsLeastRecent` | submodules/edgez-halow-mesh-prebuilt/include/edgez_mesh_recovery_policy.h:64-73 | a miss in a full table is granted and replaces exactly one entry, granted no later than any other |
| `PeerRecovery.CooldownRespected` | submodules/edgez-halow-mesh-prebuilt/include/edgez_mesh_recovery_policy.h:52-56 | a transmitter with an entry is granted iff its cooldown is over and the time since then, in 32 bits, is below 2^31 |
| `PeerRecovery.GrantedWhenOver` | submodules/edgez-halow-mesh-prebuilt/include/edgez_mesh_recovery_policy.h:52-56 | up to 2^31 ms after its cooldown ended it is granted iff it ended |
| `PeerRecovery.RunSound` | submodules/edgez-halow-mesh-prebuilt/include/edgez_mesh_recovery_policy.h:38-75 | from an all-invalid table, in every run, the table keeps that shape and its size |
| `PeerRecovery.RunMostRecent` | submodules/edgez-halow-mesh-prebuilt/include/edgez_mesh_recovery_policy.h:49-74 | in every run with live stamps the table holds all transmitters ever granted or is full of the latest ones |
| `PeerRecovery.RankDecides` | submodules/edgez-halow-mesh-prebuilt/include/edgez_mesh_recovery_policy.h:49-74 | with distinct grant times a transmitter is in the table iff fewer transmitters than entries were granted after it |
| `PeerRecovery.GrantsApartOrEvicted` | submodules/edgez-halow-mesh-prebuilt/include/edgez_mesh_recovery_policy.h:49-74 | two grants to one transmitter are a cooldown apart, or the table has been filled by others granted since |
| `PeerRecovery.RunAllPresent` | submodules/edgez-halow-mesh-prebuilt/include/edgez_mesh_recovery_policy.h:49-74 | with no more transmitters than entries everyone ever granted keeps an entry |
| `PeerRecovery.GrantsApart` | submodules/edgez-halow-mesh-prebuilt/include/edgez_mesh_recovery_policy.h:38-75 | with no more transmitters than entries two grants to one transmitter are at least a cooldown apart, in every run and without any condition on the age of stamps |
| `Channels.ApChannelIsValid` | drivers/wifi/morsemicro/wifi_mgmt.c:444-468 | true iff the index is below the bandwidth and some entry has the number, the bandwidth and a matching class |
| `Channels.ClassMatchesMeaning` | drivers/wifi/morsemicro/wifi_mgmt.c:459-462 | the class rule in the fields: -1 in either class matches everything, otherwise one of the two is the class as a 16-bit value |
| `Channels.SpansMeaning` | drivers/wifi/morsemicro/wifi_mgmt.c:543-548 | the distance of the centres is less than half the bandwidth |
| `Channels.CalcPrimaryChanIdx` | drivers/wifi/morsemicro/wifi_mgmt.c:482-525 | the one-pass search gives the index of the first entry with the primary number in the first entry with number and class |
| `Channels.FindOperatingChannel` | drivers/wifi/morsemicro/wifi_mgmt.c:537-554 | the first entry of the bandwidth that strictly spans the primary |
| `Channels.FirstSpanningMeaning` | drivers/wifi/morsemicro/wifi_mgmt.c:541-553 | the search fails iff no entry spans, and finds none before the one it returns |
| `Channels.IndexInRange` | drivers/wifi/morsemicro/wifi_mgmt.c:516-522 | for a primary of at most 2 MHz spanned by an operating channel the truncating division gives an index inside it |
| `Channels.ReportedClassMatches` | drivers/wifi/morsemicro/wifi_mgmt.c:601-605 | the class chosen for a channel always selects that channel |
| `Channels.OperatingFinds` | drivers/wifi/morsemicro/wifi_mgmt.c:495-509 | with distinct numbers an entry is found again by its number and a class it matches |
| `Channels.DeriveOperatingChannel` | drivers/wifi/morsemicro/wifi_mgmt.c:572-618 | for every list: when it succeeds and with what values; that an operating channel is derived iff there is one, from the first such entry and accepted by `morsemicro_ap_channel_is_valid`, holds iff the list is unambiguous; the class is the S1G class of that entry, or its global class if that is -1 |
| `Channels.DistinctIsUnambiguous` | drivers/wifi/morsemicro/wifi_mgmt.c:572-618 | lists with distinct numbers are unambiguous |
| `Channels.IndexBySteps` | drivers/wifi/morsemicro/wifi_mgmt.c:516-522 | the index against another entry is the index in the spanning entry iff the primary lies in the same 1 MHz step of both, inside that entry and no wider |
| `Channels.SameStepOnGrid` | drivers/wifi/morsemicro/wifi_mgmt.c:516-522 | on one 1 MHz grid the steps are the same iff the lower edges of the two entries are |
| `Channels.FirstOperatingMeaning` | drivers/wifi/morsemicro/wifi_mgmt.c:498-504 | the entry that a class and number select is the first that they belong to |
| `Channels.GridIndex` | drivers/wifi/morsemicro/wifi_mgmt.c:516-518 | on the 1 MHz grid positions and indices correspond one to one |
| `Channels.RepeatedNumberFails` | drivers/wifi/morsemicro/wifi_mgmt.c:498-504 | with a repeated number the derivation fails although an entry spans the primary |
| `Channels.RepeatedNumberMisleads` | drivers/wifi/morsemicro/wifi_mgmt.c:498-504 | with a repeated number it succeeds with outputs that the access-point check rejects |
| `Channels.RepeatedPrimaryFails` | drivers/wifi/morsemicro/wifi_mgmt.c:585-594 | with the primary number repeated it fails although a later entry could be derived from |
| `RegDomain.Driver.WlanStart` | drivers/wifi/morsemicro/net_mgmt.c:173-290 | every exit of start-up: the result and the fields it leaves |
| `RegDomain.Driver.IfaceInit` | drivers/wifi/morsemicro/net_mgmt.c:292-315 | start-up with the configured region, from a disabled and uninitialised interface |
| `RegDomain.Driver.SetRegDomain` | drivers/wifi/morsemicro/wifi_mgmt.c:352-394 | a SET: the result and the fields it leaves; "00" deinitialises the library and disables the interfaces, a failed shutdown changes nothing but the scan |
| `RegDomain.Driver.GetRegDomain` | drivers/wifi/morsemicro/wifi_mgmt.c:396-426 | a GET: the region of the channel list or "00", and the channels, clamped to the room there is |
| `RegDomain.StepsInOrder` | drivers/wifi/morsemicro/net_mgmt.c:201-276 | the result of start-up is the error of the first failing library call in order |
| `RegDomain.ErrnoMeaning` | drivers/wifi/morsemicro/morsemicro_common.h:183-207 | which library results give which error |
| `RegDomain.StartFields` | drivers/wifi/morsemicro/net_mgmt.c:173-290 | every field after a start, and its three kinds of error |
| `RegDomain.WorldDisables` | drivers/wifi/morsemicro/wifi_mgmt.c:373-391 | over every run: after a SET of "00" the library does not run and the interfaces are disabled and down |
| `RegDomain.SetReports` | drivers/wifi/morsemicro/wifi_mgmt.c:352-394 | one SET: the reported region afterwards, and that the interface is up only with a channel list |
| `RegDomain.FirstFailureMeaning` | drivers/wifi/morsemicro/morsemicro_common.h:183-207 | a start reports success iff every call it made succeeded |
| `RegDomain.GetReportsLastAttempt` | drivers/wifi/morsemicro/wifi_mgmt.c:347-430 | over every run GET reports the region of the last attempt if both databases know it, else "00", whatever the later steps returned; the interface is never up without a channel list |
| `RegDomain.SetSuccess` | drivers/wifi/morsemicro/wifi_mgmt.c:384-393 | a SET that reports success has its region in force, the scan aborted and the interface up, dormant and with carrier; it succeeds iff the region is supported and every call succeeded |
| `AesCbc.Ecb` | components/morsemicro/libmorse/edgez_hostap_os_zephyr.c:47-57 | one block through the block cipher, read before it is written |
| `AesCbc.CryptBlock` | components/morsemicro/libmorse/edgez_hostap_os_zephyr.c:41-67 | one turn of the loop, also with input and output the same buffer: output block and IV, or the IV unchanged on an error |
| `AesCbc.CryptCbc` | components/morsemicro/libmorse/edgez_hostap_os_zephyr.c:28-73 | one call over one buffer or two: length error, or the blocks done are the CBC of the input with the IV carried, all of them iff the result is 0, else the result is that of the failing block; nothing past that block changes |
| `AesCbc.ProcessedStep` | components/morsemicro/libmorse/edgez_hostap_os_zephyr.c:39-71 | one more block continues a CBC computation from its IV |
| `AesCbc.DecryptUndoesEncrypt` | components/morsemicro/libmorse/edgez_hostap_os_zephyr.c:28-73 | decryption undoes encryption for every message, IV and invertible cipher |
| `AesCbc.EncryptUndoesDecrypt` | components/morsemicro/libmorse/edgez_hostap_os_zephyr.c:28-73 | encryption undoes decryption |
| `AesCbc.SplitAnywhere` | components/morsemicro/libmorse/edgez_hostap_os_zephyr.c:28-73 | one call over a message equals two over its parts with the IV carried, in both modes |
| `AesCbc.SplitBytes` | components/morsemicro/libmorse/edgez_hostap_os_zephyr.c:28-73 | the same for byte strings of whole blocks |
| `AesCbc.EncryptEquations` | components/morsemicro/libmorse/edgez_hostap_os_zephyr.c:41-52 | the encryption equations of section 6.2 of NIST SP 800-38A |
| `AesCbc.DecryptEquations` | components/morsemicro/libmorse/edgez_hostap_os_zephyr.c:54-66 | the decryption equations of section 6.2 of NIST SP 800-38A |
| `AesCbc.RoundTripInPlace` | components/morsemicro/libmorse/edgez_hostap_os_zephyr.c:28-73 | encrypting and then decrypting any whole-block part of a buffer in place restores the buffer, and succeeds if the block cipher does |
| `SdioWindow.AddressBaseSet` | samples/porting_assistant/src/sdio_spi.c:379-410 | result 0 iff no register write failed, and then the window, the access mode and the function addressed are as asked |
| `SdioWindow.MorseCmd53Write` | samples/porting_assistant/src/sdio_spi.c:313-367 | inside a window the block part and the byte part write exactly the range; every command has 1 to 128 blocks or 1 to 511 bytes and stays in the window |
| `SdioWindow.MorseCmd53Read` | samples/porting_assistant/src/sdio_spi.c:243-297 | the same for reading; right after the window was placed the first word may appear twice |
| `SdioWindow.BlockPartMatches` | samples/porting_assistant/src/sdio_spi.c:248-279 | the block command moves as many bytes as the driver counts iff the function is 2 or there is no block part |
| `SdioWindow.ChunkFits` | samples/porting_assistant/src/sdio_spi.c:466-475 | for a safe range the next chunk is not empty, fits in what is left and in the window, and leaves a safe range |
| `SdioWindow.StaysInBufferIffSafe` | samples/porting_assistant/src/sdio_spi.c:456-494 | within the address space the loop stays inside the buffer iff the range ends at or below 0xFFFF0000 or exactly at 2^32 |
| `SdioWindow.LastWindowOverrun` | samples/porting_assistant/src/sdio_spi.c:471-475 | four bytes at 0xFFFF0000 are split into a chunk of 65536 bytes |
| `SdioWindow.WriteMultiByte` | samples/porting_assistant/src/sdio_spi.c:500-548 | a bulk write is a memory copy: on result 0 the range holds the buffer and nothing else changed; on a failure completed chunks hold and only the failing chunk may have changed |
| `SdioWindow.WriteChunk` | samples/porting_assistant/src/sdio_spi.c:518-539 | one turn of the write loop continues the copy |
| `SdioWindow.ReadMultiByte` | samples/porting_assistant/src/sdio_spi.c:442-498 | a bulk read gives the device bytes when no command failed, although a first transfer may repeat its first word; its result is 0 iff the window could always be placed, whatever the data commands returned; a word whose data command failed is reported as read |
| `SdioWindow.IgnoredReadError` | samples/porting_assistant/src/sdio_spi.c:477-477 | a read whose data command fails returns 0 and a buffer that is not the device range |
| `SdioWindow.ReadChunk` | samples/porting_assistant/src/sdio_spi.c:477-489 | one chunk with the second read of its first two words when they are equal |
| `SdioWindow.ReadNext` | samples/porting_assistant/src/sdio_spi.c:458-493 | one turn of the read loop continues the read; for less than two words a failing data command still counts as success |
| `SdioWindow.WriteThenRead` | samples/porting_assistant/src/sdio_spi.c:442-548 | writing a buffer and reading the range back gives the buffer |
| `SdioWindow.ReadLe32` | samples/porting_assistant/src/sdio_spi.c:412-440 | the word at an address, little-endian, iff no command failed |
| `SdioWindow.WriteLe32` | samples/porting_assistant/src/sdio_spi.c:550-565 | the word at an address and nothing else |
| `SdioWindow.UpdateLe32` | samples/porting_assistant/src/sdio_spi.c:572-589 | read, mask and write back: no other memory changes; with negative error codes the result is 0 iff no command failed |
| `SdioWindow.MaskedBits` | samples/porting_assistant/src/sdio_spi.c:581-582 | the masked bits take the new value and all others keep theirs |
| `SdioWindow.PackOfUnpack` | samples/porting_assistant/src/sdio_spi.c:436-436 | packing the four bytes of a word gives the word |
| `SdioWindow.PackBytes` | samples/porting_assistant/src/sdio_spi.c:436-436 | byte i of a buffer is bits 8i to 8i + 7 of the word |
| `SdioWindow.GoodLengthMeaning` | samples/porting_assistant/src/sdio_spi.c:448-449 | lengths are a positive number of words |
| `SpiTransfer.Context.SendNextFrame` | drivers/spi/spi_ll_stm32_optim.c:297-315 | sends the next transmit frame, or NOP, and advances |
| `SpiTransfer.Context.ReadNextFrame` | drivers/spi/spi_ll_stm32_optim.c:317-335 | stores the received frame if there is a buffer for it, and advances |
| `SpiTransfer.Context.TransceivePolled` | drivers/spi/spi_ll_stm32_optim.c:853-855 | the polled loop exchanges max(1, frames left) frames, or stops after the first frame with an error, whose code it returns |
| `SpiTransfer.Context.MoveBuffers` | drivers/spi/spi_ll_stm32_optim.c:273-290 | one DMA segment, null buffers going through the shared dummy word |
| `SpiTransfer.Context.TransceiveDma` | drivers/spi/spi_ll_stm32_optim.c:1007-1061 | the segment loop terminates, computes `DmaRun` and moves exactly the frames left, or stops in the first failing segment with the cursors at its start |
| `SpiTransfer.AdvanceShape` | drivers/spi/spi_ll_stm32_optim.c:1059-1060 | advancing both cursors by a segment uses up exactly its frames |
| `SpiTransfer.SegmentMaximal` | drivers/spi/spi_ll_stm32_optim.c:1010-1016 | a segment uses up a current buffer and runs past the end of none |
| `SpiTransfer.MovedIsFrames` | drivers/spi/spi_ll_stm32_optim.c:273-290 | within a segment n frames by DMA are n single frames, as long as none is an echo |
| `SpiTransfer.SegmentIsFrames` | drivers/spi/spi_ll_stm32_optim.c:1007-1061 | a segment that does not echo is its number of single frames |
| `SpiTransfer.QuietRunIsPolled` | drivers/spi/spi_ll_stm32_optim.c:1007-1061 | a transfer without echoing segments equals the frame-by-frame transfer of max(tx frames, rx frames) frames, on the line, in the cursors and in memory |
| `SpiTransfer.EchoIsSent` | drivers/spi/spi_ll_stm32_optim.c:175-182 | an echoing segment sends a frame other than NOP where the frame-by-frame transfer sends NOP |
| `SpiTransfer.DmaMatchesPolled` | drivers/spi/spi_ll_stm32_optim.c:1007-1061 | the two transfers agree for every slave iff no segment with both buffers null is longer than the transmit channel runs ahead, plus one |
| `SpiTransfer.RealReceiveIsQuiet` | drivers/spi/spi_ll_stm32_optim.c:1007-1061 | with real receive buffers at least as long as the transmit buffers nothing echoes |
| `SpiTransfer.RealTransmitIsQuiet` | drivers/spi/spi_ll_stm32_optim.c:1007-1061 | with real transmit buffers at least as long as the receive buffers nothing echoes |
| `SpiTransfer.FramesWire` | drivers/spi/spi_ll_stm32_optim.c:297-315 | the line carries the transmit frames padded with NOPs |
| `SpiTransfer.FramesMeaning` | drivers/spi/spi_ll_stm32_optim.c:297-335 | the same, and frame k received goes to place k of the receive buffers, or is dropped |
| `SpiTransfer.CountBufsetFrames` | drivers/spi/spi_ll_stm32_optim.c:709-728 | the buffer loop adds the lengths up in 32 bits, for every list of lengths |
| `SpiTransfer.CountTotalFrames` | drivers/spi/spi_ll_stm32_optim.c:730-751 | for whole-frame buffers the count is exactly the number of frames the transfer exchanges, and fails only above 65535; in general it succeeds iff both byte counters are whole frames and at most 65535 |
| `SpiTransfer.CountIsMoved` | drivers/spi/spi_ll_stm32_optim.c:709-728 | the length in bytes over the frame size is the number of frames the context takes iff every buffer is whole frames |
| `SpiTransfer.CountIsTransfer` | drivers/spi/spi_ll_stm32_optim.c:709-728 | for whole-frame buffers each count is the number of frames its direction of the transfer takes |

## Left out

- MbinCompress.CompressMbin: log messages and file sizes are not modelled; `os.path.abspath` is a parameter.
- MbinMeaning.ImagesPreserved: zlib itself is abstract; the target's loader and any 32-bit limit on the addresses it writes are outside the repository.
- FwValidator.ExecuteFwBcfTest: freeing of read buffers and the log text are not modelled.
- FwValidator.SplitIndependence: files have fewer than 2^32 bytes, as anything has that a 32-bit offset can address.
- BcfRegions.RegionLookup: that it answers by name is stated for aligned tables, a condition characterised exactly; for other streams its answer is given by the table. The chip check and the raw include are not modelled.
- SdioWindow.MorseCmd53Write: function 1 only below 8 bytes, as the driver uses it; for more the block command moves other bytes than the driver counts (BlockPartMatches), beyond the caller's buffer.
- SdioWindow.MorseCmd53Read: function 1 only below 8 bytes, for the same reason.
- SdioWindow.ReadLe32: the four bytes lie inside one window; the source makes no provision for others and the device's behaviour there is unknown. The null pointer check is left out because the model passes no pointer.
- SdioWindow.WriteLe32: the four bytes lie inside one window, for the same reason.
- SdioWindow.UpdateLe32: the register after a failed command is left open, as the hardware may have written anything; positive error codes pass its tests and are not characterised.
- AesCbc.CryptCbc: buffers that overlap without being equal are not modelled.
- RegDomain.Driver.SetRegDomain: the link address and the request kinds other than SET and GET are not modelled.
- SpiTransfer.Context.TransceiveDma: interrupts, FIFO and slave modes, cache maintenance, chip select and busy waits are hardware behaviour; a failing segment is taken to have exchanged some number of frames.
- `os_memcmp_const`, `os_strlcpy` and the random source of the crypto shim: easy members or I/O.
- The other prebuilt mesh headers (declarations without bodies) and `edgez_forward_policy.h`: nothing to model, or a three-iteration loop.
- Packet transfer, scan results, connection parameters, status reporting, the OS and HAL shims, samples, shell and CI scripts: plumbing and I/O.
