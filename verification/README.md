# F11 printing, verified

A Dafny model of the Rongta F11 open driver: the wire codec that turns a grayscale page into a
checksummed print job and back, the gift collector and event journal that keep stream-event prints
to at most one each, the raster fitting and PGM handling of `f11d`, and the set-up wizard's
checkpoints under concurrent requests. `dafny verify dfyconfig.toml` checks everything.

## How it is laid out

| file | what it holds |
|---|---|
| `Prelude.dfy` | results that may be errors, lists without repeats |
| `Bytes.dfy` | bytes, 16-bit words with Go's truncating conversions, the bit view of a byte |
| `Checksum.dfy` | the seeded CRC as a linear, reversible 32-bit machine |
| `Framing.dfy` | frames, the frame loop, exactness and damage detection |
| `PrefixTree.dfy`, `HuffmanCoder.dfy` | code trees, codes, bit packing; the Huffman object |
| `TreeWire.dfy` | preorder/inorder serialisation and its reader |
| `HuffmanBuild.dfy`, `Optimality.dfy`, `HuffmanTheorems.dfy`, `HuffmanOrder.dfy` | greedy construction, its shape, its optimality, how ties are broken |
| `Raster.dfy` | ordered dithering into packed rows |
| `PrintJob.dfy`, `JobCodec.dfy` | the job's frames, encoder and strict decoder |
| `WireFormat.dfy` | what every frame of a job carries, as numbers |
| `StrictDecoder.dfy`, `SwiftDecoder.dfy` | what the strict decoder accepts; the reference application's laxer decoder |
| `GiftCollector.dfy`, `GiftRuns.dfy` | the collector object; its behaviour over whole runs |
| `EventJournal.dfy`, `JournalRuns.dfy` | journal, processor and printer; safety and restarts over whole runs |
| `GiftPrints.dfy` | collector, processor and journal as one machine, over many process lives |
| `FitCanvas.dfy`, `Pgm.dfy`, `PgmGrammar.dfy`, `F11d.dfy` | letterbox fit, padding, PGM files and exactly which are read, the two `f11d` commands |
| `SetupWizard.dfy` | checkpoint file, handlers and their interleavings |

Loops and objects of the source are methods and classes. Each is proved equal to a specification
function, and the theorems are about those functions. A 32-bit register is the sequence of its bits,
least significant first. Other integers are unbounded; every place where the source stores one in
16 or 8 bits goes through `ToWord` or `ToByte`, which drop the high bits as Go does.

Environment choices are arguments: whether an append was synced or which part of it was left behind,
whether the print command confirmed, what the helper answered, whether a save failed before or after
the rename. A successful append plus sync survives a crash; a crash may replace everything behind the
synced part of the journal by anything. A torn piece of a record is never itself a record, nor is a
line that holds more than one record or piece. The single-process lock
(Appliance/cmd/twitch-banner/main.go:78) is taken for granted: at most one process uses a journal.

## What came out

- The check "decode the stream and compare every row" cannot fail on the encoder's own output, and
  `encode-pgm` therefore succeeds exactly on the files that parse (`F11d.EncodePgm`).
- A coded page never has more bits than the raw page (`HuffmanTheorems.NoExpansion`), so no job
  exceeds 15,468,451 bytes and the 64 MiB limit is never met.
- Decoding undoes encoding unless the tree is a lone leaf or lacks a leaf for some byte of non-empty
  data; in those cases it always fails (`PrefixTree.DecodeEncode`). Built trees are never like that.
- The answer of `NextDue` right after a flush lies in the future exactly when no entry with a negative
  total is overdue; such an entry is never flushed (`GiftRuns.NegativeTotalStaysDue`). Event parsing
  only lets totals of 10 to 1000 through, so it cannot arise in practice.
- `NextDue` uses the zero instant for "none". It answers the earliest deadline of a started entry if
  and only if that deadline is not the zero instant, in whatever order the map is visited
  (`GiftCollector.ScanIsNextDue`); otherwise the answer may depend on that order
  (`GiftRuns.ZeroInstantIsNone` gives two entries and two orders).
- One append that fails half-way, followed by one that works, leaves a torn piece in the synced part
  of the journal: the process goes on, but once it stops it never starts again
  (`JournalRuns.TornPieceStopsRestart`). A stopped process can come up again exactly when the synced
  part is whole record lines (`JournalRuns.CanStartExactly`).
- A checkpoint saved by the wizard stays saved in every continuation exactly when every copy that a
  request holds at that moment carries it (`SetupWizard.SurvivesExactly`). So `physical_attempted` can be
  lost to a concurrent save; `SetupWizard.AttemptCheckpointCanBeLost` is a run from the empty state that
  loses it. The helper's marker file alone keeps the print command at one run.

## Model

| member | source | states |
|---|---|---|
| `Crc.Checksum` | Appliance/internal/protocol/protocol.go:13-26 | the bit loops compute the seeded register function |
| `Crc.ConstantValues` | Appliance/internal/protocol/protocol.go:11-19 | polynomial, seed and final mask are the numbers in the source |
| `Crc.EmptySum` | Appliance/internal/protocol/protocol.go:13-26 | the checksum of nothing is the seed as a number |
| `Crc.StepBits` | Appliance/internal/protocol/protocol.go:18-23 | one turn, bit by bit: shift down, and the polynomial where the lowest bit was set |
| `Crc.WidenBits` | Appliance/internal/protocol/protocol.go:16-17 | a byte enters at the low end of the register |
| `Crc.TableTop` | Appliance/internal/protocol/protocol.go:18-23 | eight turns a byte: the table entry of the highest bit is the polynomial |
| `Crc.ChecksumIsTableDriven` | Appliance/internal/protocol/protocol.go:13-26 | the bitwise checksum is update_crc of section 8 of RFC 1952 started from the vendor seed |
| `Crc.UpdateComposes` | Docs/PROTOCOL.md:36-42 | checksumming a concatenation is checksumming its parts in turn, for every seed |
| `Crc.RunInjective` | Appliance/internal/protocol/protocol.go:15-24 | for a fixed byte string the final register determines the initial one |
| `Crc.BurstChangesRegister` | Appliance/internal/protocol/protocol.go:15-24 | strings that differ only within four consecutive bytes leave different registers |
| `Crc.StoredSumIsResidue` | Appliance/internal/protocol/protocol.go:47-66 | a stored checksum matches exactly when body and checksum together reach one fixed residue |
| `Framing.EncodeFrame` | Appliance/internal/protocol/protocol.go:33-49 | the bytes of a frame as numbers, sync, lengths and checksum included, or an error exactly above 65530 payload bytes |
| `Framing.DecodeFrames` | Appliance/internal/protocol/protocol.go:51-78 | the index loop reads frame after frame with the source's checks and errors |
| `Framing.FramingExact` | Appliance/internal/protocol/protocol.go:33-78 | decoding gives a frame list exactly on the concatenation of those frames' encodings |
| `Framing.BurstDetected` | Appliance/internal/protocol/protocol.go:51-78 | any change of an encoded stream confined to four consecutive bytes makes decoding fail |
| `PrefixTree.CodeIsPath` | Appliance/internal/protocol/protocol.go:94-114 | the recorded code of a byte is the path to its leaf, and only leaves have codes |
| `PrefixTree.CodeLeads` | Appliance/internal/protocol/protocol.go:94-114 | following a code, left on 0 and right on 1, ends at its byte's leaf; a lone leaf has the code 0 |
| `PrefixTree.WalkExact` | Appliance/internal/protocol/protocol.go:204-230 | whatever a walk emits, the bits it used are exactly the codes of what it emitted |
| `PrefixTree.DecodeEncode` | Appliance/internal/protocol/protocol.go:185-235 | decoding undoes encoding if and only if there is nothing to code, or the tree is no lone leaf and has a leaf for every byte; otherwise it fails |
| `PrefixTree.EncodeDecode` | Appliance/internal/protocol/protocol.go:185-235 | accepted bits re-encode to the same padding and the same bits up to the padding |
| `PrefixTree.UnpackPack` | Appliance/internal/protocol/protocol.go:190-198 | packed bits read most significant first are the original bits |
| `PrefixTree.EncodedLayout` | Appliance/internal/protocol/protocol.go:185-199 | coded bytes hold the code bits from the top bit down, then fewer than eight ones, which are counted |
| `HuffmanCoder.Huffman.constructor` | Appliance/internal/protocol/protocol.go:94-114 | the walk from the root records exactly the code table and node count |
| `HuffmanCoder.Huffman.Walk` | Appliance/internal/protocol/protocol.go:97-111 | a walk adds the codes and nodes of its subtree and nothing else |
| `HuffmanCoder.Huffman.Encode` | Appliance/internal/protocol/protocol.go:185-199 | concatenated codes, padded with ones to whole bytes |
| `HuffmanCoder.Huffman.Shift` | Appliance/internal/protocol/protocol.go:194-197 | the shift-in loop packs eight bits a byte, most significant first |
| `HuffmanCoder.Huffman.Turn` | Appliance/internal/protocol/protocol.go:213-228 | one bit moves to a child, emits at a leaf, or fails, as the walk does |
| `HuffmanCoder.Huffman.Decode` | Appliance/internal/protocol/protocol.go:200-235 | the byte and bit loops walk the tree over the unpadded bits, with the source's errors |
| `TreeWire.TreeWriter.Preorder` | Appliance/internal/protocol/protocol.go:159-167 | appends the subtree's preorder symbols |
| `TreeWire.TreeWriter.Inorder` | Appliance/internal/protocol/protocol.go:168-176 | appends the subtree's inorder symbols |
| `TreeWire.SerializedTraversals` | Appliance/internal/protocol/protocol.go:156-184 | both traversals as little-endian words |
| `TreeWire.SerializedLayout` | Appliance/internal/protocol/protocol.go:156-184 | the bytes as numbers: all preorder symbols, then all inorder symbols, low byte first |
| `TreeWire.TraversalPlaces` | Appliance/internal/protocol/protocol.go:159-176 | a node comes first in its preorder, and in its inorder between its sides |
| `TreeWire.ReadSymbols` | Appliance/internal/protocol/protocol.go:379-391 | both symbol arrays, or an error exactly when one repeats a symbol |
| `TreeWire.TreeReader.BuildRange` | Appliance/internal/protocol/protocol.go:402-434 | the recursive builder over its captured preorder index |
| `TreeWire.TreeFrom` | Appliance/internal/protocol/protocol.go:371-459 | the tree of a payload, or the source's error |
| `TreeWire.BuildTraversals` | Appliance/internal/protocol/protocol.go:402-434 | from the traversals of any tree with distinct symbols the builder rebuilds that tree |
| `TreeWire.BuildExact` | Appliance/internal/protocol/protocol.go:402-434 | a tree that is built has exactly the traversals it was built from |
| `TreeWire.ValidateExact` | Appliance/internal/protocol/protocol.go:439-457 | validation passes exactly full trees whose leaves are bytes |
| `TreeWire.TreeWireExact` | Appliance/internal/protocol/protocol.go:156-459 | a payload reads as a tree if and only if the tree is full, has distinct symbols, byte leaves, at most 511 nodes, and serialises to that payload |
| `HuffmanBuild.BuildHuffman` | Appliance/internal/protocol/protocol.go:115-154 | the counting, listing and merging loops compute the tree function |
| `HuffmanBuild.MergeNodes` | Appliance/internal/protocol/protocol.go:140-153 | the merge loop, for any sort that meets the comparison, computes the tree function |
| `HuffmanBuild.SortedInOrder` | Appliance/internal/protocol/protocol.go:142-147 | the specification's sort orders by weight and by age among equal weights |
| `HuffmanBuild.OneSorting` | Appliance/internal/protocol/protocol.go:142-147 | with distinct ages there is only one ordering the comparison allows, so equal weights never make the tree ambiguous |
| `HuffmanBuild.MergeAges` | Appliance/internal/protocol/protocol.go:148-151 | ages stay distinct through every merge |
| `HuffmanOrder.BuiltIsOrdered` | Appliance/internal/protocol/protocol.go:141-152 | in every built tree the left sibling weighs less, or the same and is the older; parents are younger than children |
| `HuffmanOrder.SmallPages` | Appliance/internal/protocol/protocol.go:128-139 | the tree of a page of one byte value and of an empty page, with the weightless leaf on the left |
| `HuffmanOrder.LeavesAreBytes` | Appliance/internal/protocol/protocol.go:120-127 | with two different bytes on the page the leaves are exactly its bytes |
| `HuffmanBuild.MergeAllShape` | Appliance/internal/protocol/protocol.go:141-152 | merging keeps leaves, keeps symbols distinct, and adds the merge weights to the path length |
| `HuffmanTheorems.BuiltShape` | Appliance/internal/protocol/protocol.go:115-154 | every built tree is full with 2 to 256 distinct byte leaves covering the page, inner symbols from 256 to 254 plus the number of leaves, at most 511 nodes, depth at most 255 |
| `HuffmanTheorems.GreedyIsLeast` | Appliance/internal/protocol/protocol.go:141-152 | the merge weights never exceed the cost of placing the same weights at any depths that fill a tree |
| `HuffmanTheorems.BuiltIsOptimal` | Appliance/internal/protocol/protocol.go:115-154 | no full tree over the same leaves has a smaller weighted path length |
| `HuffmanTheorems.CodedLength` | Appliance/internal/protocol/protocol.go:185-189 | the number of code bits of a byte string is its weighted path length |
| `HuffmanTheorems.NoExpansion` | Appliance/internal/protocol/protocol.go:317-322 | the code of a whole page has at most as many bits as the page |
| `Raster.DitherRow` | Appliance/internal/protocol/protocol.go:245-254 | the dot loop's or-ed bits are the packed threshold bits of the row |
| `Raster.Monochrome` | Appliance/internal/protocol/protocol.go:237-258 | the rows of the centred 1592-dot window, or an error exactly on illegal dimensions |
| `Raster.NativeMonochrome` | Appliance/internal/protocol/protocol.go:289-305 | the 1664-dot rows, or an error exactly on illegal dimensions |
| `Raster.ThresholdBits` | Appliance/internal/protocol/protocol.go:241-253 | the threshold of a dot by the two low bits of its coordinates |
| `Raster.MonoDots` | Appliance/internal/protocol/protocol.go:242-254 | each dot, as a bit of its byte from the top down, says whether its pixel in the centred window is below the numeric threshold; the column clamp is never needed |
| `Raster.NativeDots` | Appliance/internal/protocol/protocol.go:295-303 | the same for native rows |
| `JobCodec.EncodeRowFrame` | Appliance/internal/protocol/protocol.go:268-281 | the row frame's bytes, with the source's errors |
| `JobCodec.Add` | Appliance/internal/protocol/protocol.go:324-330 | appends an encodable frame and leaves the stream alone otherwise |
| `JobCodec.AddSetup` | Appliance/internal/protocol/protocol.go:331-347 | the six frames before the rows, none of them dropped |
| `JobCodec.AddRows` | Appliance/internal/protocol/protocol.go:348-354 | one frame per row, numbered from 1, or the row error at the first row that cannot be framed |
| `JobCodec.AddFinish` | Appliance/internal/protocol/protocol.go:355-356 | the end and commit frames |
| `JobCodec.EmitJob` | Appliance/internal/protocol/protocol.go:331-357 | the whole frame sequence in order |
| `JobCodec.EncodeRows` | Appliance/internal/protocol/protocol.go:313-358 | for any rows at all: the settings error, the row error exactly when a row has neither head width or there are more than 65535, or a stream whose frames carry settings, sizes, tree, sentinel and rows as `WireFormat.JobLayout` lists them in numbers |
| `JobCodec.EncodeJob` | Appliance/internal/protocol/protocol.go:282-288 | succeeds exactly on legal rasters and settings, in numbers; then the stream decodes to the monochrome rows and its frames carry the settings |
| `JobCodec.EncodeNativeJob` | Appliance/internal/protocol/protocol.go:306-312 | the same at native width |
| `WireFormat.SetupBytes` | Appliance/internal/protocol/protocol.go:331-347 | the six set-up frames are those with the listed numbers in them |
| `WireFormat.FinishBytes` | Appliance/internal/protocol/protocol.go:355-356 | the two closing frames likewise |
| `WireFormat.RowBytes` | Appliance/internal/protocol/protocol.go:268-281 | a row frame's header fields, code bits and padding as numbers |
| `WireFormat.AllFramesLayout` | Appliance/internal/protocol/protocol.go:331-357 | every job of framable rows is encodable and reads back as frames carrying exactly those numbers |
| `JobCodec.DecodeRow` | Appliance/internal/protocol/protocol.go:360-370 | the row of a single packet |
| `JobCodec.RowPacketRoundTrip` | Appliance/internal/protocol/protocol.go:268-370 | a row packet decodes to its row for every tree that covers it |
| `JobCodec.RowPacketExact` | Appliance/internal/protocol/protocol.go:360-370 | a packet decodes to a row if and only if it is legal frames, the first with the row's width, padding count and code bits |
| `JobCodec.DecodeRows` | Appliance/internal/protocol/protocol.go:515-529 | the row loop checks and decodes every row frame in order |
| `JobCodec.DecodeSettings` | Appliance/internal/protocol/protocol.go:478-486 | the checks on the first three frames |
| `JobCodec.DecodeJob` | Appliance/internal/protocol/protocol.go:460-538 | the strict decoder with its checks in order |
| `PrintJob.RowRoundTrip` | Appliance/internal/protocol/protocol.go:268-281 | the decoder reads an encoded row frame as that row; its payload is at most 6642 bytes |
| `PrintJob.JobSize` | Appliance/internal/protocol/protocol.go:313-358 | every job's stream is at most 15,468,451 bytes and all its frames are encodable |
| `PrintJob.FrameLimits` | Appliance/internal/protocol/protocol.go:334-356 | tree payload at most 2044 and row payloads at most 6642 bytes, so no dropped error can occur |
| `PrintJob.JobRoundTrip` | Appliance/internal/protocol/protocol.go:313-538 | for every raster of height 1 to 65535 and all legal settings the stream decodes to the same width, height, copies and rows |
| `PrintJob.DamagedJobRejected` | Appliance/internal/protocol/protocol.go:460-467 | a job damaged within any four consecutive bytes is rejected |
| `StrictDecoder.ReadRowIsCarried` | Appliance/internal/protocol/protocol.go:516-529 | a row that is read was carried by the encoder's own frame up to padding bits |
| `StrictDecoder.DecodedExact` | Appliance/internal/protocol/protocol.go:200-235 | a row payload decodes to a row if and only if its width, padding count and bits are those of the row's codes |
| `StrictDecoder.StrictAcceptance` | Appliance/internal/protocol/protocol.go:460-538 | a stream is read as a job if and only if it is legal frames carrying, in numbers, some legal settings and a sendable tree around one carrying frame per row |
| `SwiftDecoder.AcceptedByBoth` | Sources/F11PrintCore/F11Protocol.swift:153-170 | frames the strict decoder accepts at 1592 dots give the lax one the same rows, even with more frames behind them outside the row class |
| `SwiftDecoder.DecodersAgree` | Sources/F11PrintCore/F11Protocol.swift:129-196 | every stream the strict decoder accepts at 1592 dots the lax decoder accepts with the same height and rows |
| `SwiftDecoder.ExtraFrameTellsApart` | Sources/F11PrintCore/F11Protocol.swift:153-170 | one more legal frame outside the row class separates the two decoders on every accepted 1592-dot stream |
| `SwiftDecoder.LaxAcceptance` | Sources/F11PrintCore/F11Protocol.swift:153-170 | the lax decoder reads a stream as a job if and only if it is legal frames with a start and tree frame found by subcommand and row-class frames of which all but the first carry the rows |
| `GiftCollector.Collector.Accept` | Appliance/internal/twitchgift/gift.go:161-189 | new state and emission of one accepted event |
| `GiftRuns.AcceptExactly` | Appliance/internal/twitchgift/gift.go:161-189 | in every run one more event joins its community's log, and the community is celebrated in that call if and only if the first total is positive and as many recipients are listed; else it stays open |
| `GiftRuns.KeyIs` | Appliance/internal/twitchgift/gift.go:176-179 | a recipient goes by its id, or by its name in lower case |
| `GiftCollector.Collector.Finish` | Appliance/internal/twitchgift/gift.go:208-217 | moves one entry from pending to completed and counts what is missing |
| `GiftCollector.Collector.FlushDue` | Appliance/internal/twitchgift/gift.go:191-206 | the loop over the order list equals a flush said without it |
| `GiftCollector.Collector.NextDue` | Appliance/internal/twitchgift/gift.go:219-231 | nothing without a started entry; otherwise the earliest deadline if and only if that is not the zero instant |
| `GiftCollector.ScanIsNextDue` | Appliance/internal/twitchgift/gift.go:219-231 | the same for every order in which the map may be visited |
| `GiftRuns.FlushExact` | Appliance/internal/twitchgift/gift.go:191-206 | a flush emits exactly the due entries, once each, in order of first arrival, drops exactly the expired ones and keeps the rest |
| `GiftRuns.EmittedOnce` | Appliance/internal/twitchgift/gift.go:161-217 | in every run no community is emitted twice, completed and pending are disjoint, and an entry with a total has fewer recipients than it |
| `GiftRuns.CelebrationListsRecipients` | Appliance/internal/twitchgift/gift.go:161-217 | every emitted celebration lists exactly the distinct recipients accepted since its entry opened, in arrival order, with the first total and the number missing |
| `GiftRuns.OrderIsFirstArrival` | Appliance/internal/twitchgift/gift.go:165-170 | the order list without repeats is the order in which ids first arrived |
| `GiftRuns.FlushInArrivalOrder` | Appliance/internal/twitchgift/gift.go:193-200 | of two communities that one flush celebrates the first had arrived when the second had not |
| `GiftRuns.WindowCountsFrom` | Appliance/internal/twitchgift/gift.go:166-174 | in every run an open entry counts its window from the first start with a total, else from the latest start, else from its first event |
| `GiftRuns.FlushByEventTimes` | Appliance/internal/twitchgift/gift.go:191-206 | a flush celebrates, and drops, exactly by the times of those events |
| `GiftRuns.StartIsFinal` | Appliance/internal/twitchgift/gift.go:171-174 | in every run, once an entry has a total nothing later moves its deadline, total or gifter, and it is not closed without being celebrated |
| `GiftRuns.DeadlinesAfterFlush` | Appliance/internal/twitchgift/gift.go:191-231 | after a flush all deadlines are in the future if and only if no negative total was overdue |
| `GiftRuns.NextDueAfterFlush` | Appliance/internal/twitchgift/gift.go:219-231 | on parsed events NextDue after a flush is strictly later than the flush |
| `GiftRuns.NegativeTotalStaysDue` | Appliance/internal/twitchgift/gift.go:198-203 | an input on which the deadline promise fails |
| `GiftRuns.ZeroInstantIsNone` | Appliance/internal/twitchgift/gift.go:219-231 | a run after which NextDue answers differently in two visiting orders |
| `EventJournal.Disk.Append` | Appliance/internal/twitchbanner/twitchbanner.go:98-115 | a synced append makes the file durable to its end; a failed one may leave any part |
| `EventJournal.OpenJournal` | Appliance/internal/twitchbanner/twitchbanner.go:69-96 | opens exactly when every line replays, with the replayed ids |
| `EventJournal.Journal.ReserveEvent` | Appliance/internal/twitchbanner/twitchbanner.go:121-136 | error, duplicate or reservation, with the whole effect on file and memory |
| `EventJournal.Journal.RecordSubmitted` | Appliance/internal/twitchbanner/twitchbanner.go:138-142 | appends the submitted record |
| `EventJournal.Process` | Appliance/internal/twitchbanner/twitchbanner.go:204-224 | one call is its reserve, print and submitted steps in sequence; its result tells the case, which records the file then holds, and whether the event was printed |
| `JournalRuns.ReopenedSeesAll` | Appliance/internal/twitchbanner/twitchbanner.go:81-91 | a file that reopens has every recorded id in its seen set and nothing torn |
| `JournalRuns.ReopensExactly` | Appliance/internal/twitchbanner/twitchbanner.go:79-95 | the process starts again if and only if the file is whole record lines |
| `JournalRuns.StartsAgain` | Appliance/internal/twitchbanner/twitchbanner.go:69-115 | in every run without failed appends or leftovers of crashes the process always starts again |
| `JournalRuns.TornIsFinal` | Appliance/internal/twitchbanner/twitchbanner.go:79-95 | once a torn piece lies in the synced part no later start succeeds |
| `JournalRuns.TornPieceStopsRestart` | Appliance/internal/twitchbanner/twitchbanner.go:98-115 | a half-written append followed by a good one is such a run |
| `JournalRuns.CanStartExactly` | Appliance/internal/twitchbanner/twitchbanner.go:79-95 | a stopped process can start in some continuation if and only if the synced part is whole record lines |
| `JournalRuns.PrintedAtMostOnce` | Appliance/internal/twitchbanner/twitchbanner.go:121-142 | in every run with crashes, torn appends, restarts and redelivery no event id is printed twice |
| `JournalRuns.PrintedAfterReserved` | Appliance/internal/twitchbanner/twitchbanner.go:209-220 | whatever a step prints had its reservation synced before and keeps it in the file for the rest of the run |
| `GiftPrints.GiftKeyInjective` | Appliance/internal/twitchgift/print.go:65-68 | different communities have different journal ids |
| `GiftPrints.GiftPrintedAtMostOnce` | Appliance/internal/twitchgift/print.go:64-85 | over collector calls, crashes anywhere in them, restarts with an empty collector, test gifts and other events, no community reaches the printer twice |
| `GiftPrints.ShownListsRecipients` | Appliance/cmd/twitch-banner/main.go:441-446 | what a collector call puts on the printer lists exactly the recipients that collector accepted |
| `GiftPrints.LifeIsRun` | Appliance/cmd/twitch-banner/main.go:495-508 | every life of the appliance is a run of the journal machine, so its theorems carry over |
| `GiftPrints.ShownIsReserved` | Appliance/internal/twitchgift/print.go:70-81 | every printed gift has its own reservation in the synced part of the file |
| `GiftPrints.ReservedBeforeShown` | Appliance/internal/twitchgift/print.go:70-81 | whatever a happening prints was printed by a step that found its reservation already synced |
| `GiftPrints.PrintedExactly` | Appliance/internal/twitchgift/print.go:64-77 | a gift is printed if and only if its reservation is synced and its own journal id is not known to the process |
| `GiftPrints.NotHeldBack` | Appliance/internal/twitchgift/print.go:64-77 | a gift with a synced reservation is printed unless the file records that very community |
| `GiftPrints.OthersNeverHoldBack` | Appliance/internal/twitchgift/print.go:64-77 | records of other communities, and of cheers and raids in the shared journal, never hold it back |
| `FitCanvas.FitGrayCanvas` | Appliance/internal/render/pgm.go:17-49 | succeeds exactly on legal dimensions with the canvas that the letterbox rule gives dot by dot |
| `FitCanvas.Sampled` | Appliance/internal/render/pgm.go:38-48 | the sampling loops write exactly the window and leave the rest white |
| `FitCanvas.FittedDots` | Appliance/internal/render/pgm.go:38-48 | every dot of the fitted canvas is white or the source pixel at the scaled line and column |
| `FitCanvas.WindowIsLetterbox` | Appliance/internal/render/pgm.go:24-40 | the window lies inside the canvas, fills one dimension and is centred to within one |
| `FitCanvas.AspectIsKept` | Appliance/internal/render/pgm.go:24-37 | both window sides are the exactly scaled sides to the nearest unit, or 1 |
| `FitCanvas.WindowSurvivesRounding` | Appliance/internal/render/pgm.go:24-37 | however scales, products and sums are rounded, within a tenth of a unit, the window stays inside and fills one dimension |
| `FitCanvas.SampleInRange` | Appliance/internal/render/pgm.go:42-44 | each window line samples the source line in whose share it begins |
| `FitCanvas.SameSizeIsCopy` | Appliance/internal/render/pgm.go:21-23 | the equal-size shortcut agrees with the general rule |
| `FitCanvas.CenterPadGray` | Appliance/internal/render/pgm.go:62-72 | succeeds exactly on legal sizes, in numbers, with the padded page |
| `FitCanvas.PaddedDots` | Appliance/internal/render/pgm.go:62-72 | every dot of the padded page is white or the page's own, the page in the middle, an odd margin on the right |
| `FitCanvas.PadToSameWidth` | Appliance/internal/render/pgm.go:62-72 | padding to the page's own width changes nothing |
| `FitCanvas.FitGrayHeadCanvas` | Appliance/internal/render/pgm.go:51-60 | exactly the padded fitted canvas, or an error exactly on illegal canvases |
| `Pgm.Reader.Token` | Appliance/internal/render/pgm.go:74-108 | the reader loops find the next token and consume one delimiter |
| `Pgm.ParsePGMRange` | Appliance/internal/render/pgm.go:117-160 | the image of a file, or the source's error |
| `Pgm.ParseWritten` | Appliance/internal/render/pgm.go:117-160 | the parser's answer for the appliance's header followed by any bytes at all |
| `Pgm.PgmRoundTrip` | Appliance/internal/render/pgm.go:117-160 | a written raster reads back whatever its pixels are, and with anything appended is rejected |
| `PgmGrammar.TokenExact` | Appliance/internal/render/pgm.go:74-108 | a word is read exactly where any white space and whole comment lines, the word of at most 32 bytes, and one delimiter or the end stand |
| `PgmGrammar.AtoiExact` | Appliance/internal/render/pgm.go:135-146 | numbers are an optional sign and decimal digits of a 64-bit value |
| `PgmGrammar.ParseSpelled` | Appliance/internal/render/pgm.go:117-160 | the parser's answer for any spelling of a header, comments included, followed by any bytes |
| `PgmGrammar.ParsedExactly` | Appliance/internal/render/pgm.go:117-160 | a file is read as a raster if and only if it is such a header for it and then its pixels |
| `PgmGrammar.CommentIsSkipped` | Appliance/internal/render/pgm.go:80-88 | a comment line behind the magic line changes nothing |
| `F11d.ComposePgm` | Appliance/cmd/f11d/main.go:105-133 | succeeds exactly on allowed canvases, sizes and parsing inputs and writes exactly the padded fit behind the header, byte by byte |
| `F11d.EncodePgm` | Appliance/cmd/f11d/main.go:134-173 | succeeds exactly on files that parse; its self-check never fails; the stream decodes to the dithered padded page and carries speed 12, density 9, tracking 0 |
| `F11d.ComposedIsEncoded` | Appliance/cmd/f11d/main.go:127-146 | encode-pgm reads what compose-pgm wrote as exactly that raster and pads nothing |
| `SetupWizard.SetupState.MarkComplete` | Appliance/internal/setupstate/state.go:61-74 | adds the checkpoint and sets the time of change unless the time is zero |
| `SetupWizard.Store.Save` | Appliance/internal/setupstate/state.go:161-207 | the file is replaced as a whole or not at all |
| `SetupWizard.Handle` | Appliance/cmd/f11-setup-wizard/main.go:382-660 | each handler's checks and checkpoint on its loaded copy equal the decision function, at the zero time included; nothing else in the copy changes |
| `SetupWizard.DecidedOk` | Appliance/cmd/f11-setup-wizard/main.go:466-660 | what a handler adds under its guard keeps a closed copy closed |
| `SetupWizard.HandlerOutcome` | Appliance/cmd/f11-setup-wizard/main.go:382-660 | each handler's outcome by its prerequisites and verification: nothing, or its copy and exactly its checkpoint |
| `SetupWizard.SavedSetsAreClosed` | Appliance/cmd/f11-setup-wizard/main.go:382-660 | in every interleaving the saved checkpoints are closed under prerequisites, listed one by one, so complete has every step behind it |
| `SetupWizard.SavedIsEarned` | Appliance/cmd/f11-setup-wizard/main.go:466-660 | in every interleaving each saved checkpoint was put there by a request of its own kind whose operation had been verified |
| `SetupWizard.CompleteIsReachable` | Appliance/cmd/f11-setup-wizard/main.go:466-660 | from every state some continuation saves every checkpoint |
| `SetupWizard.PhysicalTestAtMostOnce` | Appliance/cmd/f11-setup-helper/main.go:214-282 | in every interleaving the print command runs at most once and only under the marker |
| `SetupWizard.AskedOnlyWhenSaved` | Appliance/cmd/f11-setup-wizard/main.go:628-649 | a handler asks for the print only when its own save of the attempt succeeded |
| `SetupWizard.SurvivesExactly` | Appliance/cmd/f11-setup-wizard/main.go:382-660 | from any state, a saved checkpoint stays saved in every interleaving if and only if every copy in flight carries it |
| `SetupWizard.AttemptCheckpointCanBeLost` | Appliance/cmd/f11-setup-wizard/main.go:628-649 | a run from the empty state that saves the attempt checkpoint, runs the command and loses the checkpoint |

## Left out

- FitGrayCanvas: the scale is an exact real, not a float64; the window is proved to survive rounding, but a side that lies within rounding of a half unit may come out one unit apart.
- AspectIsKept: stated for the exact scale, for the same reason.
- Collector: open entries are values in the map rather than shared pointers; nothing else in the source holds one.
- TreeWire.TreeReader.BuildRange: the nodes' order field, which nothing reads, is not kept.
- EventJournal.Process: stands for the cheer, gift and raid processors, which differ in qualification, id and text only; bits, user, text and job fields of a record are not modelled.
- EventJournal.OpenJournal: JSON decoding, the scanner's line-length limit and a missing file (the same as an empty one) are folded into whole, torn and ended cells.
- SetupWizard.Handle: helper, Twitch and form answers are one verified flag; sessions, CSRF, notices and the legacy state migration are not modelled.
- Pgm.ParsePGMRange: buffered reading is reading from the byte string directly.
- Event and command parsing of Twitch messages: parsed events are inputs.
- The Swift encoder: the same steps as the Go encoder, so it would only repeat them; Swift errors carry no texts here.
- Swift frame loop: makes the checks of the Go loop in the same order and shares its specification.
- Banner, gift and raid page drawing, PDF rendering, USB transport, CUPS filter, installers and image tools.
- Durability of the journal's directory entry and of the wizard's state directory.
