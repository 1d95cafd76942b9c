# Verified models of libburn

libburn writes data, audio and CD-TEXT to optical media. This Dafny project models the parts of it where the result
depends on an algorithm or a protocol rather than on a single SCSI command, and proves what these parts are for:

- **Fifo** (`fifo*.dfy`): two threads share a ring buffer without a mutex. `Fifo` gives each access of a thread to a shared
  variable as one step, `FifoSafety` and `FifoDelivery` prove an invariant over all interleavings, `FifoRuns` derives delivery,
  counters, memory safety and progress, `FifoSizes` and `FifoLoss` tell for which parameters all this holds, and `FifoMemory`
  is the object with its ring in an array. Each of its methods is proved equal to a step.
- **Offset sources** (`offset_*.dfy`): several consumers get neighboring intervals of one input stream.
- **Error correction and scrambling** (`gf.dfy`, `carryless.dfy`, `parity_code.dfy`, `rspc*.dfy`, `scrambler.dfy`): annexes A and B of ECMA-130.
- **CD-TEXT** (`bytes.dfy`, `crc.dfy`, `cdtext*.dfy`): annex J of MMC-3. `CdText` says declaratively which packs a session needs,
  `CdTextReading`, `CdTextHeaders` and `CdTextRoundTrip` read them back, `CdTextCursor` and `CdTextSession` produce them step by step in an
  array, and `CdTextCheck` verifies and repairs checksums.
- **Device locking** (`ddlpa*.dfy`): Delicate Device Locking Protocol A over aliased device files.
- **Line-to-word parser** (`backslash*.dfy`, `line_parser.dfy`, `argv_maker.dfy`) of the frontend.
- **Message queue** (`msg_*.dfy`): the heap list and the sequence which it represents.
- **TOC composition, format selection, write type choice** (`fake_toc.dfy`, `format_*.dfy`, `write_*.dfy`).

Where an operation changes memory in place, a method does the same on arrays or fields and is proved against a function.
The properties are then proved of the function, over all inputs or all runs. Where such a function is a table or a layout,
lemmas tell its outcome once more in terms of plain numbers: bits of the scrambler table, headers of packs, standard paths,
kinds of media, entries of the TOC.

## What does not hold

Some promises are not kept by the code in all cases. The model follows the code. Lemmas give the exact condition over
all inputs, most of them with an instance where it is violated:

- Fifo: a read which has to be served by two copies hands out wrong bytes, because the source address of the copy
  depends on the progress of the call. The copy is right exactly if it is the first one of its call
  (`FifoRuns.CopyRightIfFirst`). And the branch for equal positions never prepares for a wrap, so an input read crosses the
  end of the ring exactly if the ring is empty and its end is too near (`FifoSafety.ActivationFits`). As consequence, all
  inputs and interleavings of a fifo go well exactly if the input chunk size divides the ring size and the read size divides
  the input chunk size, or the ring is too small for any input read (`FifoSizes.AlignmentIsNeeded`).
  `FifoSafety.NewFifoIsAligned` tells which parameters of the constructor guarantee this.
- Fifo: after an input error the consumer may miss the last chunk. It gets the whole input in all interleavings exactly if
  there is no input error, or the input is empty, or the ring has two chunks and the input consists of full chunks
  (`FifoLoss.AlwaysDelivers`, with an instance in `FifoLoss.ErrorMayLoseData`). What it misses is what is left in the ring
  (`FifoRuns.LossIsUnread`).
- Offset sources: the number of bytes to be skipped is an `int`. Skipping works exactly if the gap is smaller than
  2 GiB (`OffsetChain.SkipReachesStart`). A source knows its position exactly if its predecessor was the last one to be read
  or nothing has been taken yet (`OffsetChain.StartKnowsPosition`). Else its first payload begins too late by the number of
  bytes which have been taken from the stream (`OffsetChain.FirstPayload`, with an instance in `OffsetChain.LeftOutSource`).
  A refused offset source stays linked to its chain (`OffsetSource.NewSource`).
- CD-TEXT: a track text which is itself a lone TAB is not distinguishable from the abbreviation (`CdTextRoundTrip.RoundTrip`).
- Device locking: two requests for the same drive without any sibling may both hold their locks exactly if the device
  numbers of their paths differ (`DdlpaRuns.ExclusionWithoutSiblings`, with an instance in
  `DdlpaRuns.WithoutSiblingsNoExclusion`). Exclusion is proved for drives with at least one sibling, which is given
  if a standard path tells the address of the drive (`DdlpaRuns.StandardPathIsSibling`). In general two requests exclude each
  other exactly if the devices of their paths and siblings overlap (`DdlpaRuns.WhenBothHold`).
- Parser: the comment at frontend/frontend_pipes_xorriso.c lines 821 to 825 says that mode 2 interprets backslashes outside
  single quotes. The code of mode 2 interprets them inside double and single quotes, but not outside of quotes
  (`BackslashModes.OctalLetterInMode2`). A part of a word is as promised exactly if it is in double quotes or contains no
  code (`BackslashModes.PartAsPromised`). For whole words see `BackslashModes.WordAsPromised`: codes in both kinds of parts
  may make up for each other (`BackslashModes.TwoDeviationsMayCancel`).
- TOC: the entries get written in the sequence of their places exactly if no session number falls, among the numbers
  which are within the number of sessions (`FakeToc.PlacesIncrease`). With two tracks a falling session number makes entries
  overwrite each other exactly if it falls by 1 or 2 (`FakeToc.TwoTracksCollide`).
- DVD-RAM: for maximum size, the selected size may depend on the sequence of the descriptors
  (`FormatUnit.MaximumDependsOnSequence`). It does not exactly if the largest type 0x01 is larger than all of type 0x00, or no
  type 0x01 is larger than the second largest type 0x00, or there is a single type 0x00 and all of type 0x01 have its size, or
  none of both types is there (`FormatOrder.WhenOrderMatters`).
- Write type: the check confirms the chosen SAO exactly if the disc has only MODE1 and audio tracks or the drive offers SAO
  blocks for TAO, and the chosen TAO exactly if the drive offers MODE1 blocks for TAO or TAO was already set
  (`WriteTypes.CheckConfirmsChoice`, with an instance in `WriteTypes.OtherTracksMayDisagree`).

## Model

| member | source | states |
|---|---|---|
| FifoMemory.FifoSource.constructor | libburn/file.c:496-556 | a new fifo of any sizes is in the initial state, and satisfies the invariant if the sizes are aligned |
| FifoMemory.FillRing | libburn/file.c:430-445 | reading into the ring or copying in two pieces gives the ring with the buffer wrapped around its end |
| FifoMemory.FifoSource.ReadInputStep | libburn/file.c:386-424 | one read from the input into the ring, with no access outside of it |
| FifoMemory.FifoSource.ShovellerStep | libburn/file.c:357-481 | the shoveller in memory does exactly the step of the protocol and keeps the invariant |
| FifoMemory.FifoSource.EndStep | libburn/file.c:456-476 | the same for the steps from reporting the end up to freeing the ring |
| FifoMemory.FifoSource.ConsumerStep | libburn/file.c:229-306 | fifo_read in memory does exactly the step of the protocol and keeps the invariant |
| FifoMemory.FifoSource.Copy | libburn/file.c:287-287 | copying to the caller happens within the ring, which is not freed |
| FifoMemory.FifoSource.TestInput | libburn/file.c:260-275 | what ends the waiting for data, with the race between end and error |
| FifoMemory.FifoSource.Finish | libburn/file.c:293-305 | a call hands out what it copied, or ends consumption if there was nothing |
| FifoSafety.NewFifoIsAligned | libburn/file.c:508-527 | at least two chunks of the size of an input read make a fifo with aligned sizes |
| FifoSafety.FreeBytesIsRest | libburn/file.c:364-374 | the computed number of free bytes is the ring size less the unread bytes less 1 |
| FifoSafety.ActivationFits | libburn/file.c:362-378 | a read stays within the ring exactly if not both the ring is empty and its end is too near |
| FifoSafety.ActivationAppends | libburn/file.c:361-445 | each activation, wrapped or not, appends exactly the valid bytes to the unread ones and touches none of them |
| FifoSafety.ContentShrinks | libburn/file.c:277-288 | taking bytes without gap removes the first unread ones and yields them |
| FifoSafety.RoomAtEnd | libburn/file.c:370-378 | aligned write positions keep input reads from crossing the end of the ring |
| FifoSafety.ShovellerInv | libburn/file.c:357-481 | every step of the shoveller keeps the invariant |
| FifoDelivery.DiffOk | libburn/file.c:277-286 | the bytes available at once are as many as wanted or the rest of the input |
| FifoDelivery.CopyData | libburn/file.c:287-287 | while bytes are copied the ring is not freed, and the copied bytes are the next ones of the input |
| FifoDelivery.ConsumerInv | libburn/file.c:222-306 | every step of the consumer keeps the invariant |
| FifoDelivery.RunInv | libburn/file.c:249-253 | the invariant holds in every interleaving of the two threads |
| FifoRuns.DeliveredIsPrefix | libburn/file.c:222-306 | in every interleaving the bytes handed out are the first bytes of the input |
| FifoRuns.WholeInput | libburn/file.c:262-305 | at the end of data, and at every end without input error, the whole input has been handed out |
| FifoRuns.LossIsUnread | libburn/file.c:262-274 | in every ended interleaving, the bytes handed out and the unread ones in the ring are together the input |
| FifoLoss.AlwaysDelivers | libburn/file.c:222-481 | all ended interleavings deliver the whole input exactly if there is no input error, or no input, or a ring of two chunks and an input of full chunks |
| FifoLoss.ErrorMayLoseData | libburn/file.c:260-270 | instance: with a ring of three chunks and one chunk of input, the error may be seen before the chunk |
| FifoLoss.TightDelivers | libburn/file.c:357-461 | with a ring of two chunks and an input of full chunks, an error cannot be reported before the last chunk gets taken |
| FifoRuns.CopyRightIfFirst | libburn/file.c:287-287 | the copy delivers the right bytes to the right place exactly if it is the first one of its call |
| FifoSizes.AlignmentIsNeeded | libburn/file.c:222-481 | for all inputs and interleavings, no stray access happens and only the bytes of the input are handed out in sequence, exactly if both sizes are multiples or the ring takes nothing at all |
| FifoRuns.CountersAtRest | libburn/file.c:423-424 | between calls in_counter is out_counter plus the bytes in the ring, which are the input bytes in between |
| FifoRuns.NeverFull | libburn/file.c:288-290 | the ring is never full, so equal positions always mean empty, even before the wrap to 0 |
| FifoRuns.NoStrayAccess | libburn/file.c:463-476 | no access outside of the ring or to a freed ring in any run |
| FifoRuns.FinitelyManySteps | libburn/file.c:222-306 | a run has at most 31 times the input size plus 21 steps which do not poll, however the threads take turns |
| FifoRuns.NeverBothStuck | libburn/file.c:259-279 | in each state of the invariant, one of the threads gets out of its wait loop after at most two own steps of polling |
| FifoRuns.CanEnd | libburn/file.c:357-481 | from every state of the invariant both threads can come to their end |
| FifoRuns.NoDeadlock | libburn/file.c:259-279 | after every schedule, one of the threads gets out of its wait loop, unless both have ended |
| FifoRuns.EveryRunCanEnd | libburn/file.c:357-481 | every schedule is the start of one after which both threads have ended |
| FifoRuns.EndFlagTells | libburn/file.c:290-476 | end_of_consumption is 1 only after the end of fifo_read and 2 only after the claim of the shoveller, and the ring is freed exactly at its end |
| OffsetSource.InputStream.Read | libburn/source.c:67-76 | reads full buffers, then at most one short one, then the end or an error |
| OffsetSource.OffsetSource.SetSize | libburn/file.c:785-796 | an adjustable or unset size gets replaced, the nominal size always |
| OffsetSource.OffsetSource.Skip | libburn/file.c:828-840 | the skip loop takes the truncated gap in pieces of one buffer and stops at the end of the input |
| OffsetSource.OffsetSource.Read | libburn/file.c:813-853 | a read on objects equals the read on values, and pos moves with the stream |
| OffsetSource.ReadInChain | libburn/file.c:813-853 | a read from an object of a linked chain is the read from the chain of values, other objects stay as they are |
| OffsetSource.NewSource | libburn/file.c:866-920 | a new source is linked behind its predecessor, and stays linked even if it is refused |
| OffsetChain.SkipReachesStart | libburn/file.c:828-840 | skipping reaches the start address exactly if the gap fits into a positive int |
| OffsetChain.SkipOfAnyGap | libburn/file.c:828-840 | of any gap the lowest 32 bits get skipped if they form a positive int |
| OffsetChain.DeliversOwnInterval | libburn/file.c:842-852 | delivered bytes end within the interval, and begin there exactly if the gap was not too large |
| OffsetChain.EndsWithInterval | libburn/file.c:842-852 | a source ends only if less than a full buffer is left of its interval |
| OffsetChain.ReadReplies | libburn/file.c:828-852 | the return value tells the bytes, or an error of the input if bytes of it were needed, or 0 |
| OffsetChain.ChainDelivers | libburn/file.c:813-853 | in chain order each source delivers only bytes of its own interval, in order, and takes none of its successors |
| OffsetChain.StartKnowsPosition | libburn/file.c:823-827 | a new source knows the stream position exactly if its predecessor was read last or nothing was taken |
| OffsetChain.PayloadAddress | libburn/file.c:823-852 | a payload begins at the start plus the difference of stream position and believed position, if the gap is not too large |
| OffsetChain.FirstPayload | libburn/file.c:823-852 | the first payload of a source begins at its start exactly if its predecessor was read last or nothing was taken, else too late by what was taken |
| OffsetChain.LeftOutSource | libburn/file.c:823-827 | instance: in a chain of three sources of one byte, a left out source makes its successor deliver a foreign byte |
| Gf.PowOrder | libburn/ecma130ab.c:717-732 | x has order 255, so powers 0 to 254 are distinct |
| Gf.PowSurjective | libburn/ecma130ab.c:717-732 | every nonzero byte is a power of x |
| Gf.MulAddLeft | libburn/ecma130ab.c:527-538 | multiplication modulo x^8+x^4+x^3+x^2+1 distributes over addition |
| Gf.MulCancel | libburn/ecma130ab.c:527-538 | multiplication by a nonzero number is injective |
| Gf.PowAdd | libburn/ecma130ab.c:717-732 | exponents add when powers are multiplied |
| Carryless.MulIsRemainder | libburn/ecma130ab.c:527-539 | the product in the field is the remainder of the carry-less product divided by 0x11d |
| Carryless.UniqueRemainder | libburn/ecma130ab.c:527-539 | quotient and remainder of this division are unique |
| Rspc.SetupTables | libburn/ecma130ab.c:717-732 | the generator loop yields the powers of x and their logarithms |
| Rspc.UnrollIsTables | libburn/ecma130ab.c:538-539 | repeating the powers after 255 entries saves the reduction of exponents |
| Rspc.Mult | libburn/ecma130ab.c:527-539 | multiplication by tables is multiplication of polynomials |
| Rspc.Div3 | libburn/ecma130ab.c:544-549 | the result times 3 is the dividend |
| Rspc.ParityEquations | libburn/ecma130ab.c:583-587 | the computed pair makes both check sums of its vector 0 |
| Rspc.P0P1 | libburn/ecma130ab.c:552-588 | both parity pairs of a P column satisfy H x V = (0,0) |
| Rspc.ParityP | libburn/ecma130ab.c:591-615 | all 43 P columns satisfy H x V = (0,0) in both planes, other bytes are unchanged |
| Rspc.ColumnWords | libburn/ecma130ab.c:552-588 | element i of P column c is word 43 * i + c |
| Rspc.Q0Q1 | libburn/ecma130ab.c:618-656 | the diagonal walk by single subtraction stays in range, and its parity pairs satisfy H x V = (0,0) |
| Rspc.ParityQ | libburn/ecma130ab.c:659-683 | all 26 Q diagonals satisfy H x V = (0,0) in both planes, other bytes are unchanged |
| Rspc.DiagonalWords | libburn/ecma130ab.c:618-656 | element i of Q diagonal d is word (44 * i + 43 * d) modulo 1118, its parity words are 1118 + d and 1144 + d |
| Rspc.AddParity | libburn/ecma130ab.c:591-683 | after P and Q parity all columns and diagonals check, bytes 0 to 2075 are unchanged |
| Rspc.QPlaceOfAddress | libburn/ecma130ab.c:618-656 | each element of each diagonal has a byte of its own |
| Rspc.QAddressOfPlace | libburn/ecma130ab.c:618-656 | each byte from 12 to 2351 belongs to a diagonal |
| ParityCode.DifferInThree | libburn/ecma130ab.c:35-104 | two different vectors which satisfy the checks differ in at least three places |
| ParityCode.ExorChecks | libburn/ecma130ab.c:35-104 | the XOR of vectors which satisfy the checks satisfies them |
| RspcDistance.DistanceNine | libburn/ecma130ab.c:591-683 | two different sectors with valid parity differ in at least nine bytes |
| RspcDistance.ParityIsDetermined | libburn/ecma130ab.c:591-683 | the parity bytes are the only ones which satisfy the checks |
| RspcDistance.ParityIsLinear | libburn/ecma130ab.c:591-683 | parity of the XOR of two sectors is the XOR of their parities |
| Scrambler.Generator.NextBit | libburn/ecma130ab.c:799-808 | the register yields the bits of the sequence one by one |
| Scrambler.StepInjective | libburn/ecma130ab.c:799-808 | different register states have different successors |
| Scrambler.OutputRecurrence | libburn/ecma130ab.c:799-808 | the bits obey the recurrence of x^15+x+1 and begin with 1 and fourteen 0 |
| Scrambler.Generator.MakeTable | libburn/ecma130ab.c:811-829 | the table has 2340 bytes, which are those of the declared table |
| Scrambler.TableHoldsBits | libburn/ecma130ab.c:811-829 | bit j of table byte i, by shifting, is output bit 8 * i + j of the register |
| Scrambler.TableBegins | libburn/ecma130ab.c:280-281 | the table begins by 1, 128, 0, 96 |
| Scrambler.Scramble | libburn/ecma130ab.c:693-701 | bytes 12 to 2351 get combined with the table, the first 12 bytes stay |
| Scrambler.ScramblingFlipsBits | libburn/ecma130ab.c:693-701 | scrambling flips bit j of byte 12 + i exactly if output bit 8 * i + j is set, and leaves the first 12 bytes |
| Scrambler.ScrambledTwice | libburn/ecma130ab.c:693-701 | scrambling twice restores the sector |
| Crc.ComputeCrc | libburn/cdtext.c:83-95 | the bit loop computes the checksum function |
| Crc.CrcIsRemainder | libburn/cdtext.c:83-95 | the checksum is the remainder of m(x)*x^16 divided by x^16+x^12+x^5+1, for every byte string |
| Crc.UniqueDivision | libburn/cdtext.c:83-95 | there is only one such remainder |
| Crc.ExorCrc | libburn/cdtext.c:83-95 | the checksum of the XOR of strings of equal length is the XOR of their checksums |
| Crc.BurstIsDetected | libburn/cdtext.c:103-132 | no change confined to 16 consecutive bits of a valid pack gives a valid pack |
| CdTextCheck.CrcMismatches | libburn/cdtext.c:103-132 | counts invalid packs, or repairs them all, whichever the flags and packs demand |
| CdTextCheck.CountsAreTrue | libburn/cdtext.c:112-130 | the counts are the numbers of invalid packs, and of those with a checksum other than 0 |
| CdTextCheck.NoMismatch | libburn/cdtext.c:103-132 | the count is 0 exactly if all packs are valid |
| CdTextCheck.BurstIsReported | libburn/cdtext.c:103-132 | a burst error of up to 16 bits in one of several valid packs gets reported |
| CdTextCheck.RepairIsFinal | libburn/cdtext.c:103-132 | repaired packs pass the check, a second repair changes nothing |
| CdTextCheck.RepairKeepsContents | libburn/cdtext.c:112-130 | repair makes a pack valid and leaves its other 16 bytes |
| CdTextCursor.PackCursor.CreateNewPack | libburn/cdtext.c:45-76 | a pack gets its type, track, number in block, and character position, or the block is full |
| CdTextCursor.PackCursor.FinalizeTextPack | libburn/cdtext.c:135-154 | an open pack gets filled up and sealed by its checksum and counted |
| CdTextCursor.PackCursor.CreateTyblPacks | libburn/cdtext.c:159-188 | text bytes continue the packs of their type, with success exactly if not more than 255 packs are needed |
| CdTextCursor.PackCursor.CreateTyblTPacks | libburn/cdtext.c:245-281 | a track adds its text, a lone 0 or a TAB to the packs of its type |
| CdTextCursor.DecideTab | libburn/cdtext.c:287-308 | TAB is used exactly for texts of at least one character which repeat the one of the previous track |
| CdTextCursor.PackCursor.CreateTyblSPacks | libburn/cdtext.c:313-353 | a type of a block gets exactly its packs |
| CdTextCursor.PackCursor.CreateBlSizePacks | libburn/cdtext.c:192-239 | three packs with pack counts, before the last numbers are known |
| CdTextCursor.PackCursor.InsertLastNumbers | libburn/cdtext.c:405-427 | the summary packs of all blocks get the last numbers and new checksums, other packs stay |
| CdTextCursor.RoomForPacks | libburn/cdtext.c:51-56 | the limit of 2048 packs is never reached |
| CdTextSession.FromSession | libburn/cdtext.c:359-445 | succeeds exactly if each block fits into 255 packs, and then yields exactly the declared packs |
| CdTextSession.SessionPatched | libburn/cdtext.c:405-427 | patching last numbers into finished packs gives the packs which had known them from the start |
| CdTextReading.BlocksAreNumbered | libburn/cdtext.c:45-76 | packs of each block are valid and numbered from 0 without gap, as far as one byte can tell |
| CdTextReading.HeaderOf | libburn/cdtext.c:61-70 | the header bytes of a pack tell type, track, number, block, and position, with the highest bit 0 |
| CdTextReading.SelectedPacks | libburn/cdtext.c:359-427 | selecting block and type gives exactly the packs made for them |
| CdTextReading.SizeInfoIsTrue | libburn/cdtext.c:192-239 | the summary packs hold the true number of packs of each type and the last numbers of all blocks |
| CdTextHeaders.SizeFields | libburn/cdtext.c:192-239 | the three packs of type 0x8f hold character code, first and last track, copyright, and languages |
| CdTextHeaders.PacksAreSorted | libburn/cdtext.c:359-427 | packs come sorted by block and by type, and there are none of missing blocks |
| CdTextReading.DataOfPacks | libburn/cdtext.c:159-188 | the data fields concatenate to the written bytes, filled up by 0 |
| CdTextHeaders.TextHeaders | libburn/cdtext.c:61-70 | packs of texts tell by the data before them the number of characters since the last 0, at most 15, and the track of the first text |
| CdTextHeaders.PayloadHeaders | libburn/cdtext.c:159-180 | packs of other types tell no track, and as position the bytes before them, less 2 with type 0x87, none with binary types |
| CdTextHeaders.TextData | libburn/cdtext.c:245-353 | data fields hold the session text and per track the text, a lone 0, or a TAB for a repeated text, filled up by 0 |
| CdTextHeaders.PayloadData | libburn/cdtext.c:159-188 | data fields of other types hold the payload, filled up by 0 |
| CdTextRoundTrip.RoundTrip | libburn/cdtext.c:245-353 | session and track texts are read back exactly if no track text is an ambiguous lone TAB |
| DdlpaLock.DdlpaLock.CollectSiblings | libburn/ddlpa.c:243-328 | collects all standard paths of the drive, or tells which limit is violated |
| DdlpaLock.DdlpaLock.Occupy | libburn/ddlpa.c:170-213 | opens and locks one device file, or leaves nothing open |
| DdlpaLock.DdlpaLock.Inspect | libburn/ddlpa.c:380-398 | which inodes are already occupied and which devices already locked |
| DdlpaLock.DdlpaLock.OpenAll | libburn/ddlpa.c:370-417 | opens exactly the plan, and succeeds exactly if each opening would work on its own |
| DdlpaLock.DdlpaLock.Destroy | libburn/ddlpa.c:423-443 | closes all own descriptors and no others |
| DdlpaLock.LockPath | libburn/ddlpa.c:446-475 | the first standard path of the same device is used, and the lock is gained exactly if open, fcntl and O_EXCL work with each opening, else nothing is left open |
| DdlpaLock.LockBtl | libburn/ddlpa.c:478-509 | the same for the lowest N of which /dev/srN has the given bus, id, and lun |
| Ddlpa.ExclOnce | libburn/ddlpa.c:370-417 | a holder has each device of siblings and main personality opened by O_EXCL exactly once |
| Ddlpa.InodeOnce | libburn/ddlpa.c:378-404 | a holder has each inode of siblings and main personality opened exactly once |
| Ddlpa.SiblingsAreAll | libburn/ddlpa.c:278-317 | the siblings among the first n standard paths are exactly those with the address of the drive |
| Ddlpa.StandardSequence | libburn/ddlpa.c:80-99 | the 794 standard paths: hda to hdz, sr0 to sr255, scd0 to scd255, sg0 to sg255, in this sequence |
| Ddlpa.SiblingsOfDrive | libburn/ddlpa.c:278-317 | the siblings are exactly the paths srN, scdN, sgN with N below 256 and host, channel, id, lun of the drive |
| Ddlpa.SiblingsAreDistinct | libburn/ddlpa.c:278-317 | no sibling is listed twice |
| Ddlpa.CollectOutcome | libburn/ddlpa.c:258-325 | the search succeeds exactly with a known address, not more than 5 siblings, and sr, scd, sg among them or missing ones allowed |
| Ddlpa.PlanOpens | libburn/ddlpa.c:370-417 | when there are openings at all, the last one is of the given path by O_EXCL, the others are of siblings |
| DdlpaRuns.MutualExclusion | libburn/ddlpa.c:370-475 | over all interleavings at most one attempt for a drive with siblings holds its lock |
| DdlpaRuns.HoldersAreDisjoint | libburn/ddlpa.c:170-213 | no two holders have the same device opened by O_EXCL |
| DdlpaRuns.StandardPathIsSibling | libburn/ddlpa.c:278-317 | a standard path which tells the address of the drive is among the siblings |
| DdlpaRuns.ExclusionWithoutSiblings | libburn/ddlpa.c:318-417 | with missing siblings allowed and none found, two requests for a drive may both hold their locks exactly if the device numbers differ |
| DdlpaRuns.WhenBothHold | libburn/ddlpa.c:370-475 | two requests may both hold their locks exactly if no device is among the paths and siblings of both |
| DdlpaRuns.WithoutSiblingsNoExclusion | libburn/ddlpa.c:318-328 | instance: two files of a drive with different device numbers may be locked at the same time |
| DdlpaRuns.NothingLeftOpen | libburn/ddlpa.c:423-475 | an attempt which has ended leaves no descriptor open |
| DdlpaRuns.LoneAttemptSucceeds | libburn/ddlpa.c:370-417 | an attempt never gets in its own way |
| Backslash.BslInterpreter | frontend/frontend_pipes_xorriso.c:725-808 | decodes in place, output length plus eaten is input length |
| Backslash.OctalRoundTrip | frontend/frontend_pipes_xorriso.c:756-770 | octal codes of any text decode to this text |
| Backslash.CodedRoundTrip | frontend/frontend_pipes_xorriso.c:725-808 | text in which each character is written by any of its codes decodes to these characters |
| Backslash.NoCodeStays | frontend/frontend_pipes_xorriso.c:797-803 | a backslash that begins no code of a character stays as it is |
| LineParser.ComposedLine | frontend/frontend_pipes_xorriso.c:856-954 | a line composed of separators, plain characters and quoted parts yields the values of its words |
| LineParser.WordsAreComposition | frontend/frontend_pipes_xorriso.c:856-954 | a line has certain words exactly if it is composed of words with these values |
| LineParser.RoundTrip | frontend/frontend_pipes_xorriso.c:856-954 | any list of words can be written with quotes so that exactly these words come out, in all modes |
| LineParser.OctalWord | frontend/frontend_pipes_xorriso.c:889-902 | octal codes inside double quotes get decoded |
| LineParser.QuotedValue | frontend/frontend_pipes_xorriso.c:889-928 | which modes decode the codes in double and in single quotes |
| LineParser.SeparatorSplits | frontend/frontend_pipes_xorriso.c:856-875 | a character between two plain words splits them exactly if it is a given separator, or white space if none are given |
| BackslashModes.PartAsPromised | frontend/frontend_pipes_xorriso.c:821-928 | in mode 2 a part of a word gets the value which the comment promises exactly if it is in double quotes or contains no code |
| BackslashModes.WordAsPromised | frontend/frontend_pipes_xorriso.c:821-928 | words without codes in unquoted and single quoted parts are as promised. Those with codes in only one kind of these parts are not. |
| BackslashModes.OctalLetterInMode2 | frontend/frontend_pipes_xorriso.c:821-928 | instance: an octal code of one letter without quotes and in single quotes |
| BackslashModes.TwoDeviationsMayCancel | frontend/frontend_pipes_xorriso.c:821-928 | instance: a word with codes in both kinds of parts which gets its promised value nevertheless |
| ArgvMaker.NextWord | frontend/frontend_pipes_xorriso.c:862-941 | the scanning loops bring exactly the next word into the work buffer, without overflow |
| ArgvMaker.TakeQuoted | frontend/frontend_pipes_xorriso.c:877-928 | a quoted part up to its closing quote, or the lack of one |
| ArgvMaker.Pass | frontend/frontend_pipes_xorriso.c:844-955 | both passes find the same words, the first one their maximum length, the second one stores them |
| ArgvMaker.MakeArgv | frontend/frontend_pipes_xorriso.c:813-979 | the argument list holds exactly the words, each fits, and 0 is returned exactly if a quote is missing |
| ArgvMaker.ArgvOfQuotedLine | frontend/frontend_pipes_xorriso.c:813-979 | any list of words without 0 bytes comes back in memory from the line in which their characters are quoted |
| MsgList.Messenger.Submit | libburn/libdax_msgs.c:330-395 | appends the message, or leaves the list as it was if severity or memory is lacking |
| MsgList.Messenger.Withdraw | libburn/libdax_msgs.c:391-394 | a failed submission restores the list |
| MsgList.Messenger.Obtain | libburn/libdax_msgs.c:398-429 | yields the oldest wanted message and leaves the declared remainder, the links represent one sequence |
| MsgList.Messenger.Unlink | libburn/libdax_msgs.c:69-85 | removes one element from the sequence, at its ends or inside |
| MsgList.Detach | libburn/libdax_msgs.c:69-85 | the neighbors of a removed element refer to each other |
| MsgList.Append | libburn/libdax_msgs.c:54-62 | a new item comes behind the youngest one |
| MsgQueue.FirstInFirstOut | libburn/libdax_msgs.c:398-429 | with equal requests the wanted messages come in the sequence of submission |
| MsgQueue.SevereAreKept | libburn/libdax_msgs.c:398-429 | over all runs no message severe enough for all requests gets lost or doubled |
| MsgQueue.SearchEnds | libburn/libdax_msgs.c:408-422 | the nested loops stop at the oldest wanted message and have deleted exactly the older ones of too low severity |
| MsgQueue.ObtainByOldest | libburn/libdax_msgs.c:398-429 | by the oldest message: it is obtained if severity and priority suffice, else it gets lost if its severity is too low, and stays else |
| FakeToc.FourCharRoundTrip | libburn/mmc.c:276-290 | numbers survive their form of four bytes modulo 2^32 |
| FakeToc.BytesRoundTrip | libburn/mmc.c:276-290 | four bytes survive their form of a number |
| FakeToc.FillToc | libburn/mmc.c:1347-1442 | the loop over tracks composes the declared table, and if no session number falls, all entries and numbers of tracks, sessions, and leadouts are as told |
| FakeToc.FakeToc | libburn/mmc.c:1248-1444 | return values, number of sessions and entries, and the table composed up to the end or up to a failure. READ TOC format 0 is used for old DVD-ROM. |
| FakeToc.PlacesAreDistinct | libburn/mmc.c:1333-1346 | if session numbers within range never fall, then no entry overwrites another one, and all are within the array |
| FakeToc.SlotsInRange | libburn/mmc.c:1301-1302 | whatever the drive replies, tracks and inner leadouts are below toc_entries |
| FakeToc.PlacesIncrease | libburn/mmc.c:1333-1439 | the entries get written in the sequence of their places exactly if the session numbers within range never fall |
| FakeToc.TwoTracksCollide | libburn/mmc.c:1355-1439 | with two tracks, a falling session number makes entries overwrite each other exactly if it falls by 1 or 2 |
| FakeToc.FallingSessionsCollide | libburn/mmc.c:1355-1439 | instance: a track of session 1 after one of session 2 overwrites its entry |
| FakeToc.LayoutIsDense | libburn/mmc.c:1333-1346 | with consecutive sessions the entries have the documented layout without gap |
| FakeToc.AllAreThere | libburn/mmc.c:1402-1416 | entries at distinct places are found where they have been written |
| FakeToc.LeadoutFollowsLastTrack | libburn/mmc.c:1355-1439 | the leadout of each session begins where its last track ends |
| FakeToc.TracksAreTold | libburn/mmc.c:1395-1425 | if no session number falls, the entry of each track is at its place with session, number, start, size, and end, and first and last track of each session are recorded |
| FakeToc.LeadoutIsTold | libburn/mmc.c:1427-1439 | under the same condition the leadout entry of each session is recorded and begins where its last track ends |
| FormatUnit.SelectDvdRam | libburn/mmc.c:3682-3739 | largest, second largest or smallest sufficient descriptor of a DVD-RAM, by size mode |
| FormatUnit.DefaultIsSecondLargest | libburn/mmc.c:3698-3737 | default size is the second largest descriptor of type 0x00, or the only one |
| FormatUnit.MaximumDependsOnSequence | libburn/mmc.c:3698-3737 | instance: two descriptors for which maximum size is the size of the last one |
| FormatUnit.MaximumIfFullFormatsFirst | libburn/mmc.c:3698-3737 | if types 0x00 come first, the choice for maximum size is not smaller than any type 0x01 and than any type 0x00 apart from the largest one |
| FormatOrder.WhenOrderMatters | libburn/mmc.c:3698-3737 | maximum size is the same for all sequences exactly if a type 0x01 is the largest, or none exceeds the second largest 0x00, or all equal a single 0x00, or there are none. It is the named size then. |
| FormatUnit.SizeRange | libburn/mmc.c:3815-3821 | smallest and largest size of managed formats |
| FormatUnit.SelectSize | libburn/mmc.c:3846-3862 | the size wish rounded up to 64 KiB is within the managed sizes, or the job is refused exactly if it is not |
| WriteTypes.CheckConfirmsChoice | libburn/options.c:277-455 | for every disc, the check confirms a chosen SAO exactly if there are only MODE1 and audio tracks or SAO blocks are offered for TAO, and a chosen TAO exactly if MODE1 is offered for TAO or TAO was already set |
| WriteTypes.ChoiceMeetsDemands | libburn/options.c:320-411 | the chosen type is offered and meets session, track, block type and simulation demands, up to force |
| WriteTypes.CheckMeetsDemands | libburn/options.c:316-435 | the same for a type which passes the check |
| WriteTypes.DemandsBlocks | libburn/drive.c:3043-3052 | the block type which is set is demanded by tracks that are neither MODE1 nor audio, and nothing else depends on it |
| WriteTypes.SameDemands | libburn/drive.c:3043-3052 | demands of data and audio tracks do not depend on the block type which is set |
| WriteTypes.SameSimulation | libburn/drive.c:2809-2986 | inquiries for SAO and TAO tell the same about simulation |
| WriteChoice.CapsReplied | libburn/drive.c:2809-2986 | return value and possible write types which an inquiry with any write type tells |
| WriteTypes.OtherTracksMayDisagree | libburn/drive.c:3049-3052 | instance: with default options and a track of another mode, the check refuses the chosen SAO |
| WriteChoice.WhichTypeIsChosen | libburn/options.c:277-455 | SAO and TAO are chosen exactly under conditions on role, profile, status, and block types of the drive, and on the tracks |
| WriteChoice.WhichTypeIsConfirmed | libburn/options.c:277-455 | a type that is already set gets confirmed exactly under such conditions |
| WriteChoice.DemandsOfTracks | libburn/drive.c:3003-3060 | what the sessions and tracks of a disc demand, by the existence of tracks of certain kinds |
| WriteChoice.RandomAccessGetsTao | libburn/drive.c:2834-2865 | on overwritable and non-drive media SAO is never chosen, and TAO exactly for a single track which fits |
| WriteChoice.BlankCdGetsSao | libburn/drive.c:2884-2907 | on blank CD with both types SAO is chosen exactly if it fits and all sizes are known, TAO exactly if it fits else |
| WriteChoice.BlankDvdGetsSao | libburn/drive.c:2908-2977 | on blank sequential DVD and DVD+R SAO is chosen exactly if it fits and no default size is needed |
| WriteChoice.AppendableGetsTao | libburn/drive.c:2877-2985 | on appendable media SAO is never chosen, and TAO whenever it is possible |
| WriteOpts.WriteOpts.AutoWriteType | libburn/options.c:277-455 | the jumps lead to the declared choice or check, options change only by a choice |
| WriteOpts.WriteOpts.TrySao | libburn/options.c:316-371 | when SAO gets chosen, confirmed, refused, or kept as second choice |
| WriteOpts.WriteOpts.TryTao | libburn/options.c:371-411 | when TAO gets chosen, confirmed, refused, or replaced by SAO |
| WriteOpts.WriteOpts.GetDemands | libburn/drive.c:3003-3060 | the loops over sessions and tracks collect the declared demands |
| WriteOpts.WriteOpts.SetWriteType | libburn/options.c:107-137 | a block type gets set exactly if it is a single one, offered for the write type or the one of SAO, and known to raw and packet writing if they are chosen |

## Left out

- Fifo: start of the thread, allocation failures, waiting times, full and empty counters, fill statistics, peeking. A
  thread step accesses at most one variable of the other thread. Copying and input reads count as one step each.
- Fifo: inputs which deliver short buffers before their end, which the description of `burn_source` forbids.
- Fifo: calls with varying sizes and the 32 KiB input chunk size of flag bit0, except as any aligned sizes.
- Offset sources: freeing of sources in the middle of a chain.
- ECMA-130: sector headers, EDC, sub-channels, and the old implementation. The tables are defined by their generator.
- CD-TEXT: double-byte texts, sheet and pack files. Texts are byte strings with their 0-terminator.
- Device locking: existence and permissions of device files are parameters which do not change while attempts run.
  Locks by fcntl(2) may fail but do not contribute to mutual exclusion. Error messages are left out.
- Parser: limits on the number of words, mode 3 of backslash interpretation, line prefixes, and the flags for a leading
  dash and for tolerating missing quotes.
- Message queue: the mutex, printing, severity names, and reference counting.
- TOC composition: the bytes of READ TRACK INFORMATION replies which hold session, addresses and size. Minutes, seconds and frames of entries, the work of READ TOC format 0 of which the outcome is a
  parameter, media capacity, allocation failures, and the leadout repair of real TOCs.
  Address arithmetic wraps around at 32 bits.
- Format selection: other profiles, explicitly chosen descriptors, certification flags, and BD modes for maximum and default size,
  which would only add easy members.
- Write type: `BURN_WRITE_NONE` as parameter of the setter, which would index outside of the block types. A missing disc object, message texts beyond their presence, address ranges of capabilities, and speed lists.
- SCSI transport, frontend processes, worker threads, signal handlers, drive enumeration and name tables.
