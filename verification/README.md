# A verified model of udf-forensic

udf-forensic reads UDF volumes (ECMA-167, OSTA UDF) out of an image and audits
what it read. This project models both halves over an immutable image, a
sequence of bytes with one reading operation that fails past the end, and
proves what the reader and the auditor promise:

- **Descriptor integrity** (`Gf2`, `Words`, `Crc`, `Tags`). The bitwise CRC loop
  computes the remainder of polynomial division over GF(2), and it is the only
  16-bit value that does. Linearity, burst detection, odd-flip detection and an
  exact account of the collisions follow, and are carried over to what the tag
  audit reports.
- **The bootstrap** (`PartitionMaps`, `Volume`, `Bootstrap`, `Mastering`). Anchor,
  Volume Descriptor Sequence, partition maps and File Set Descriptor; the fold
  behind the scan, the longest parse of a map table, and the agreement of the
  reader's walk with the auditor's. `Mastering` encodes the descriptors by the
  field tables of the standard and shows that an image which carries them mounts
  as planned.
- **File data and slack** (`FileEntry`, `Representation`, `Slack`). The block copy
  loop refines "the first `info_len` bytes of the recorded extents"; the data does
  not depend on how a File Entry records it; the second walk of the descriptors
  finds the block the data ends in under an exactly stated condition.
- **Record streams** (`Fids`, `FidStream`, `Symlink`). Directories in both layouts
  with padding and resynchronisation, the layout heuristic, and path component
  chains, each against an encoder.
- **The directory walk** (`Lists`, `Graph`, `Walk`, `Analyze`). A stack and a
  visited set over an arbitrary directory graph: exactly the reachable directories,
  each once, on every image, with every finding accounted for.
- **The mounted volume** (`Vfs`). A cache in front of the reader that stays
  truthful over every sequence of operations.
- **Specimens** (`Specimens`). Whole images that mount, on which the reader or the
  auditor falls short of its comments.

Code that updates state in the source is imperative here (`Report`, `UdfVfs`, and
the loops), and each such method is tied to a function whose properties are then
proved. Bytes and `u16`/`u32`/`u64` are bounded subset types, `usize` is taken as
64 bits wide. Members that say the code falls short of its own comments carry a
concrete image or record, next to the exact condition under which it does not.

## Model

| member | source | states |
|---|---|---|
| `Crc.Ecma167Crc` | core/src/lib.rs:907-920 | the loop over bytes and bits computes the register function whose meaning `CrcIsRemainder` gives |
| `Crc.CrcIsRemainder` | core/src/lib.rs:904-920 | for every message the CRC, and no other 16-bit value, is the remainder of M(x)·x^16 by x^16+x^12+x^5+1 |
| `Crc.CrcLinear` | core/src/lib.rs:907-920 | over messages of equal length the CRC of the XOR is the XOR of the CRCs |
| `Crc.CrcCollision` | core/src/lib.rs:907-920 | two messages of equal length have one CRC if and only if the generator divides their difference |
| `Crc.CrcLeadingZeros` | core/src/lib.rs:907-920 | because of the zero start value, leading zero bytes leave the CRC as it is |
| `Crc.CrcCodeword` | core/src/lib.rs:907-920 | a message followed by its own CRC, high byte first, has CRC 0 |
| `Crc.FeedZerosInjective` | core/src/lib.rs:911-917 | no nonzero register is shifted to zero by any number of steps |
| `Crc.CrcDetectsBurst` | core/src/lib.rs:907-920 | any change confined to 16 consecutive bits changes the CRC |
| `Crc.CrcParity` | core/src/lib.rs:907-920 | the CRC has the bit parity of its message |
| `Crc.CrcDetectsOddFlips` | core/src/lib.rs:907-920 | an odd number of flipped bits changes the CRC |
| `Gf2.RemainderUnique` | core/src/lib.rs:904-906 | division by a monic polynomial over GF(2) has one remainder, so the standard's CRC is one value |
| `Tags.TagChecksum` | core/src/lib.rs:893-902 | the loop sums the 16 tag bytes, byte 4 left out, modulo 256 |
| `Tags.ByteSumUpdate` | core/src/lib.rs:893-902 | replacing one byte changes the sum by exactly the difference of the bytes |
| `Tags.ChecksumIgnoresItself` | core/src/lib.rs:891-902 | the stored checksum does not enter the checksum |
| `Tags.AuditChecksum` | forensic/src/findings.rs:309-319 | one finding with both sums when the stored checksum is wrong, none otherwise |
| `Tags.AuditCrc` | forensic/src/findings.rs:321-335 | one finding with both values when the span fits and the stored CRC is wrong, none otherwise |
| `Tags.AuditTagAt` | forensic/src/findings.rs:289-338 | fails exactly on an unreadable block, returns its tag, and appends exactly the findings of that block and nothing else |
| `Tags.AuditIsExact` | forensic/src/findings.rs:302-335 | a checksum, or a CRC, is reported if and only if the identifier is recognised and that field is wrong (for the CRC: and its span fits the block) |
| `Tags.RecognisedNumbers` | core/src/lib.rs:925-948 | the recognised identifiers are exactly 1 to 9 and 256 to 266 |
| `Tags.FindingsName` | forensic/src/findings.rs:302-335 | a finding carries the descriptor's name, the block's address, the stored byte 4 with the computed sum, or the stored CRC at 8 with that of the bytes the length at 10 covers |
| `Tags.StampedFields` | forensic/src/findings.rs:544-553 | a stamped tag reads back as the identifier, span and CRC that were stamped, with the body untouched |
| `Tags.StampedIsClean` | forensic/src/findings.rs:544-553 | a stamped descriptor has no tag findings, whatever its body |
| `Tags.ChecksumDetectsByte` | forensic/src/findings.rs:309-319 | changing one tag byte of a descriptor with a valid checksum is reported as a bad checksum if and only if the identifier stays recognised |
| `Tags.CrcReportedUnlessMultiple` | forensic/src/findings.rs:321-335 | an edit of the covered body of a valid descriptor goes unreported if and only if the generator divides it |
| `Tags.BurstIsReported` | forensic/src/findings.rs:321-335 | any nonzero edit within 16 consecutive bits of the covered body is reported |
| `Tags.OddFlipsAreReported` | forensic/src/findings.rs:321-335 | an odd number of flipped body bits is reported |
| `PartitionMaps.ParsePartitionMaps` | core/src/lib.rs:243-274 | the cursor loop returns the decoded records of the table |
| `PartitionMaps.RecordsFrom` | core/src/lib.rs:249-272 | at most N_PM records, each as long as its own length byte says |
| `PartitionMaps.RecordsAreParsed` | core/src/lib.rs:243-274 | records that stand in the table are taken whole, and the parse goes on right behind them |
| `PartitionMaps.ParseIsMaximal` | core/src/lib.rs:249-254 | the parse stays inside min(440 + table length, sector) and ends only at N_PM records or where none can be read |
| `PartitionMaps.ParseIsLongest` | core/src/lib.rs:243-274 | on any sector the records taken are the longest well-formed run: every other such run is a prefix, and equals it exactly when it cannot go on |
| `PartitionMaps.StuckIs` | core/src/lib.rs:249-254 | no record can be read exactly where two bytes do not fit, where its length is below 2, or where it runs over the table's end |
| `PartitionMaps.OtherMaps` | core/src/lib.rs:255-270 | a type 1 map of six bytes carries the number at 4, a shorter one and every type but 1 and 2 is of unknown kind |
| `PartitionMaps.OtherIdent` | core/src/lib.rs:225-236 | the scan finds an entity identifier in an encoded Type 2 map exactly for the kind it encodes |
| `PartitionMaps.DecodeEncode` | core/src/lib.rs:225-270 | each kind of map decodes to what was encoded, whatever volume sequence number a Type 1 map has and whatever asterisk-free bytes surround a Type 2 identifier |
| `PartitionMaps.ParseEncoded` | core/src/lib.rs:243-274 | parsing inverts encoding for every table that fits its sector |
| `Volume.DetectBlockSize` | core/src/lib.rs:356-380 | the probe loop answers the first candidate with an anchor, and an error exactly when no probe could be read |
| `Volume.BlockSizeIsFirstAnchor` | core/src/lib.rs:343-380 | an error means the image ends before every possible anchor; otherwise the answer is the first candidate in order whose sector 256 has tag 2 and location 256, or none has |
| `Volume.BlockSizeIs` | core/src/lib.rs:343-380 | the candidates are tried as 2048, 512, 1024, 4096, with the error in front |
| `Volume.ScanVds` | core/src/lib.rs:413-445 | the sector loop with its map of starts and its last volume computes the recursive scan, which `ScanIsFold` and `InterpretedIsRun` describe |
| `Volume.Interpreted` | core/src/lib.rs:418-445 | the sectors interpreted come before the first terminator or zero tag |
| `Volume.StopsAre` | core/src/lib.rs:418-445 | a sequence is ended by tag 8 or tag 0 and by no other, tags 5 and 6 are the ones taken |
| `Volume.InterpretedIsRun` | core/src/lib.rs:418-445 | a list of sectors is what is interpreted if and only if it is the sequence's blocks in order, none of them tag 8 or 0, up to the declared length or a readable block with tag 8 or 0 |
| `Volume.ScanIsFold` | core/src/lib.rs:410-445 | the scan is the fold over the interpreted sectors, and fails exactly when a sector up to the one that stops it cannot be read |
| `Volume.LastWins` | core/src/lib.rs:430-442 | the fold keeps the last Partition Descriptor of each number and the last Logical Volume Descriptor |
| `Volume.CollectedStarts` | core/src/lib.rs:430-434 | the map of starts holds exactly the numbers that occur, each with its last descriptor's start |
| `Volume.MinStart` | core/src/lib.rs:462-465 | the minimum of the starts is found in whatever order the map hands them out |
| `Volume.PartitionStartIs` | core/src/lib.rs:453-468 | the start is the referenced Type 1 map's own descriptor's when there is one, else the lowest of all, and missing only when there is no descriptor |
| `Volume.ResolvedFromSectors` | core/src/lib.rs:446-482 | the last Logical Volume Descriptor decides, the partition kind and the map count are its referenced map's and its table's; the File Set Descriptor lies at the unwrapped sum, or nothing is reported exactly when that sum leaves u32 or no start is known |
| `Volume.ReadVdsChecked` | core/src/lib.rs:404-483 | scan and resolution together, read errors passed on |
| `Volume.ParseUdfStateChecked` | core/src/lib.rs:180-205 | the whole chain from anchor to root address, with every early exit; the anchor's second tag test cannot fail |
| `Volume.StateIs` | core/src/lib.rs:180-205 | an image parses to a state if and only if block size, anchor, sequence and File Set Descriptor say every field of it, with both address sums within u32 |
| `FileEntry.ReadExtent` | core/src/lib.rs:755-776 | block by block the extent's bytes are appended up to the total; succeeds exactly when all its blocks can be read, wanted or not |
| `FileEntry.ReadExtents` | core/src/lib.rs:705-752 | the descriptor loop returns the first `total` bytes of the concatenated recorded extents, or fails exactly when an extent it reaches is unreadable; the final truncation changes nothing |
| `FileEntry.ReadFeData` | core/src/lib.rs:289-339 | the data of a File Entry by allocation type and header, nothing for any other sector; `EntryTags`, `EntryFields` and `DataByAllocation` say what that is |
| `FileEntry.EntryTags` | core/src/lib.rs:299-303 | File Entries are tags 260, 261 and 266 and no other, and without one of them there is no entry |
| `FileEntry.EntryFields` | core/src/lib.rs:305-335 | allocation type, length and area by their offsets, with the header of 176 or, for tag 266, 216 bytes, and no entry exactly when the area overruns the sector |
| `FileEntry.DataByAllocation` | core/src/lib.rs:309-339 | types 0 and 1 read extents of 8- and 16-byte descriptors, type 3 is the area cut to the length, other types have no data |
| `FileEntry.PositionsOfOne` | core/src/lib.rs:713-723 | an extent of type 0 adds its bytes from its block on, types 1 to 3 add none |
| `FileEntry.NoEntryNoData` | core/src/lib.rs:641-651 | the length is the one at 56 of a readable block with one of the three tags; any other block has neither length nor data |
| `FileEntry.DataIsPrefix` | core/src/lib.rs:705-776 | the data has min(info_len, recorded bytes) bytes and byte i is the image's byte at position i of the recorded extents |
| `FileEntry.PositionInExtent` | core/src/lib.rs:713-723 | position i lies in the recorded extent that holds byte i, at the right offset from its start |
| `FileEntry.NothingNeededAfter` | core/src/lib.rs:714-714 | once the total is reached no later extent is read |
| `Representation.DecodeArea` | core/src/lib.rs:705-752 | short and long descriptor areas decode to the extents they encode, whatever eight further bytes each long descriptor has and whatever a broken-off descriptor behind them holds |
| `Representation.DecodeEntry` | core/src/lib.rs:299-335 | File Entries of the tags 260, 261 and 266, base or extended, decode to the allocation type, length and area they encode |
| `Representation.DataOfRecorded` | core/src/lib.rs:289-339 | reading an encoded File Entry gives the data of its extents, whatever the tag, the descriptor width and the bytes the reader ignores |
| `Representation.DataIsIndependentOfRepresentation` | core/src/lib.rs:289-339 | two File Entries in extents with one length and the same first info_len image positions give the same bytes whenever both can be read, and they can when all their extents can; nothing else in them matters |
| `Representation.SplitExtents` | core/src/lib.rs:705-776 | any number of cuts of recorded extents at block multiples keeps every position and every readable block |
| `Representation.CutsAndWidthsDoNotMatter` | core/src/lib.rs:289-339 | so two encoded File Entries for the same extents, of any tags and widths and up to any cuts, give the same bytes |
| `Slack.FeLastBlockPos` | core/src/lib.rs:1032-1092 | the second walk returns the last block of the last recorded extent |
| `Slack.FeSlackNonzero` | core/src/lib.rs:1003-1027 | the slack and its nonzero bytes, or nothing in each of the listed cases |
| `Slack.CountNonzero` | core/src/lib.rs:1024-1026 | the count of nonzero bytes |
| `Slack.NonzeroIsCount` | core/src/lib.rs:1024-1026 | which is the number of indices with a nonzero byte |
| `Slack.SlackLocatedExactly` | core/src/lib.rs:1029-1092 | the last byte of the data stands in the block the slack walk picks, at (info_len - 1) mod bs, if and only if the data ends in the last block of the last recorded extent, counted from a block boundary, or in a block another extent shares with it |
| `Slack.SlackLocatedOnDisjoint` | core/src/lib.rs:1029-1092 | on extents that share no block that is: if and only if the data ends in the last recorded extent's last block |
| `Slack.SharedBlockFound` | core/src/lib.rs:1074-1090 | one block recorded twice: the walk is right although the data ends in the earlier descriptor |
| `Slack.LastBytePosition` | core/src/lib.rs:1032-1092 | then the last byte's position is that block's plus (info_len - 1) mod bs |
| `Slack.DataEndsInLastBlock` | core/src/lib.rs:1032-1092 | then the last byte the data reader returns is the image's byte at that position: the two independent walks agree |
| `Slack.WholeBlocksEndInLast` | core/src/lib.rs:1015-1018 | extents that sum to info_len, all but the last block multiples, meet that condition |
| `Specimens.PreallocatedTailMissed` | core/src/lib.rs:1015-1027 | on a mounted volume whose root directory has 100 bytes of data and two allocated blocks, the slack behind the data is full of nonzero bytes, the count comes from the other block, and nothing is reported |
| `Slack.SlackFollowsData` | core/src/lib.rs:1003-1027 | the nonzero bytes are counted from info_len mod bs to the block's end, with nonzero ≤ slack < bs and info_len + slack a block multiple |
| `Slack.SlackIsResidue` | core/src/lib.rs:994-1027 | for a readable file that ends in its last block, nonzero slack is counted if and only if a nonzero byte stands between the last byte of its data and the end of the block that byte is in |
| `Fids.DetectFidTagSize` | core/src/lib.rs:517-546 | the scan returns the answer of the first descriptor; both truncation fallbacks are dead |
| `Fids.ParseFids` | core/src/lib.rs:549-638 | on arbitrary bytes the loop ends and returns the listing of the data |
| `Fids.ChildrenFromDescriptors` | core/src/lib.rs:563-636 | on arbitrary bytes the listing is, in order and once each, what the accepted descriptors add |
| `Fids.WindowsAre` | core/src/lib.rs:563-636 | a list of offsets is that of the accepted descriptors if and only if it starts from the given offset, each tag 257 with its rounded CRC length inside the data, only filler in fours between them, and behind the last filler up to where no descriptor fits or one overruns the data |
| `Fids.AddedByOne` | core/src/lib.rs:573-633 | a descriptor adds at most one child, and a child if and only if it stands for it: no parent bit, block number plus partition start within u32, directory bit, name cut at the data's end, size of its File Entry or 0 |
| `Fids.WindowsDisjoint` | core/src/lib.rs:563-636 | the descriptors accepted lie in the data, never overlap, and take at least 36 bytes each |
| `Fids.ChildrenBounded` | core/src/lib.rs:563-636 | 36 times the number of entries is at most the data length |
| `FidStream.ReadBack` | core/src/lib.rs:573-615 | the parser reads back the descriptor that stands at its cursor, in either layout, and moves on by its encoded length |
| `FidStream.Layout16` | core/src/lib.rs:517-546 | on a first descriptor right behind the tag the answer is 16 if and only if its block number is below 65536 or its partition is not 0 |
| `FidStream.Layout18` | core/src/lib.rs:517-546 | on a first descriptor two bytes later the answer is 18 if and only if its block number is in 1..65535 |
| `FidStream.LayoutOfStream` | core/src/lib.rs:517-546 | the same for the first descriptor of any encoded directory, behind any padding |
| `FidStream.ParseStream` | core/src/lib.rs:563-638 | parsing inverts encoding behind any prefix, by induction over descriptors and padding groups |
| `FidStream.RoundTrip` | core/src/lib.rs:549-638 | an encoded directory whose layout is detected lists exactly its non-parent children whose address fits u32, in order, with name, directory bit and size |
| `FidStream.RoundTripWhenPlausible` | core/src/lib.rs:517-638 | the same with the condition on the first descriptor's fields only |
| `FidStream.VersionReadAsCharacteristics` | core/src/lib.rs:517-546 | a directory's 18-offset descriptor of version 1, alone in its directory, is listed right if and only if its block number is in 1..65535 |
| `FidStream.ListedRightExactly` | core/src/lib.rs:517-638 | a whole 18-offset directory of version-1 descriptors, padding included, with at least one child that has a name or is a directory, is listed right if and only if its first descriptor's block number is in 1..65535 |
| `FidStream.AddressReadTooLate` | core/src/test_support.rs:49-70 | a child's descriptor right behind the tag, alone in its directory, is listed right if and only if its block number is below 65536 or its partition is not 0; otherwise its address is read two bytes too late |
| `Symlink.DecodeSymlinkTarget` | core/src/lib.rs:823-870 | on arbitrary bytes the cursor only grows and stays in range, and the loop computes the recursive walk |
| `Symlink.RenderAfterReset` | core/src/lib.rs:844-848 | an empty root or a parent record forgets everything written before it |
| `Symlink.DecodeInvertsEncode` | core/src/lib.rs:823-870 | decoding an encoded component chain, records of unrecognised types included, gives the path it denotes, trimmed |
| `Symlink.OnlyAfterReset` | core/src/lib.rs:840-848 | the target depends only on the components from a reset on |
| `Symlink.IdentifierIsReread` | core/src/lib.rs:846-865 | an identifier of any length on any parent, `..`, `.` or unrecognised record, behind any chain, is not skipped: the walk goes on with its bytes as records, from the path so far |
| `Symlink.CutIdentifier` | core/src/lib.rs:840-864 | behind any chain an identifier that is cut off ends the walk: a root then writes nothing, a name only its separator |
| `Symlink.FewBytesIgnored` | core/src/lib.rs:826-826 | fewer than four bytes behind any chain are ignored |
| `Symlink.TrimIs` | core/src/lib.rs:866-868 | a last slash is dropped behind a nonempty text; a lone slash and a text without one stay |
| `Timestamps.TextOrderIsTimeOrder` | core/src/lib.rs:953-968 | the order of two formatted times is the order of the times if and only if the first differing field of the time of day has digits that sort |
| `Timestamps.RealTimesSort` | core/src/lib.rs:953-968 | so it is for all times of day below 24:60:60 and for all pairs with different dates |
| `Timestamps.ZoneAndFractionIgnored` | core/src/lib.rs:953-968 | two timestamps that differ only in their time zone or their fractions of a second have the same text |
| `Timestamps.DecodeReadsFields` | core/src/lib.rs:953-968 | an encoded time is read if and only if the year is in 1970..2200, the month in 1..12 and the day in 1..31, and the text then shows its own year, month, day, hour, minute and second in decimal |
| `Timestamps.ThreeDigitHourMisordered` | core/src/lib.rs:961-967 | an unvalidated hour byte of 100 sorts before hour 20 |
| `Bootstrap.AuditVds` | forensic/src/findings.rs:352-360 | the loop with its saturating address audits the blocks of its own walk, each once, and stops where that walk stops, at tag 8 or 0 (`Volume.StopsAre`) |
| `Bootstrap.AuditBootstrapTags` | forensic/src/findings.rs:341-365 | anchor, sequence and File Set Descriptor are audited in this order; fails exactly when one cannot be read |
| `Bootstrap.WalksAgreeExactly` | forensic/src/findings.rs:352-360 | on a readable sequence auditor and reader look at the same sectors if and only if every address the reader looked at fits u32 |
| `Bootstrap.AuditCoversRead` | forensic/src/findings.rs:352-360 | whatever the addresses, the auditor's walk succeeds where the reader's did and looks at exactly those of the reader's sectors whose address fits u32 |
| `Specimens.EdgeGoesUnaudited` | forensic/src/findings.rs:353-353 | an image that mounts, has a bootstrap audit without tag findings, and was determined by a Logical Volume Descriptor with a bad checksum, one block past the last u32 address |
| `Bootstrap.InterpretedAreWalked` | core/src/lib.rs:418-445 | the sectors the reader interprets are those it looks at, in order, but for at most one more, which is last and stops it |
| `Bootstrap.CleanExactlyWhenSound` | forensic/src/findings.rs:289-338 | a list of audited addresses gives no tag findings if and only if every recognised descriptor that can be read there is sound |
| `Bootstrap.AuditedAsRead` | forensic/src/findings.rs:341-365 | after a successful parse with addresses in range the audit looks at the anchor, the reader's sectors and the File Set Descriptor |
| `Bootstrap.AuditedAddresses` | forensic/src/findings.rs:341-365 | for every parsed state the audit succeeds and looks at anchor, File Set Descriptor and exactly the reader's sectors within u32 |
| `Bootstrap.CleanAuditExactly` | forensic/src/findings.rs:341-365 | for every parsed state the bootstrap audit has no tag findings if and only if anchor, File Set Descriptor and every sector the reader looked at within u32 pass |
| `Bootstrap.CleanAuditVouches` | forensic/src/findings.rs:341-365 | such an audit means that every descriptor that determined the state and lies within u32 has a valid checksum, and a valid CRC wherever its span fits; with a sequence in range that is all of them |
| `Walk.AuditFileEntry` | forensic/src/findings.rs:405-448 | fails exactly on an unreadable block and appends that File Entry's audit, which `PartsOfAudit`, `LateIsReported` and `ResidueIsReported` describe |
| `Walk.PartsOfAudit` | forensic/src/findings.rs:405-448 | what an audit appends beside tag findings is about its own address, and is a late time exactly when the time check has a finding and slack exactly when the slack check has one, for a readable block with a File Entry |
| `Walk.LateIsReported` | forensic/src/findings.rs:422-435 | a late file is among what the audit appends exactly when it is a readable File Entry whose recorded local time is later than the volume's, if and only if the digits of the two allow |
| `Walk.ResidueIsReported` | forensic/src/findings.rs:437-446 | slack is among what the audit appends if and only if a nonzero byte stands between the data's last byte and the end of its block |
| `Walk.FindingsSay` | forensic/src/findings.rs:422-446 | a late file is reported with its own time and the volume's, slack with the two counts |
| `Walk.LateFileIsReported` | forensic/src/findings.rs:422-435 | a file is reported as later than the volume exactly when its recorded local time, to the second, is later than the volume's, if and only if the two times sort as text |
| `Walk.SlackIsReported` | forensic/src/findings.rs:437-446 | and it is reported if and only if such a byte is there |
| `Walk.ReadDirAtLba` | core/src/lib.rs:278-286 | the listing of the directory's data, nothing when the data cannot be read |
| `Walk.AuditChildren` | forensic/src/findings.rs:391-397 | directories are queued in order, every other child is audited once per occurrence |
| `Walk.AuditDirectory` | forensic/src/findings.rs:386-397 | a directory's own File Entry, then its children; fails only on an unreadable block of its trail |
| `Walk.WalkDirectoryTree` | forensic/src/findings.rs:370-401 | ends on every image and succeeds if and only if every directory reached from the root through listings, and every file one of them lists, can be read; then the directories visited are exactly those, each once, each directory is audited once and each file once per listing, and the findings are those of these audits |
| `Walk.TreeIsReachable` | forensic/src/findings.rs:379-399 | the directories the walk can reach are exactly those with a path of listed directory children from the root |
| `Walk.EdgesAreListed` | forensic/src/findings.rs:391-393 | a directory leads on to exactly the addresses of its listed children with the directory bit |
| `Walk.TrailsAreCensus` | forensic/src/findings.rs:386-397 | the addresses audited for distinct directories are each of these once and each of their non-directory children once per listing |
| `Walk.WalkOrderIrrelevant` | forensic/src/findings.rs:367-401 | any order of visiting the reachable directories audits the same addresses, each as often, and reports the same findings |
| `Graph.ClosedHoldsPath` | forensic/src/findings.rs:379-399 | a set that holds the root and is closed under subdirectories holds every reachable directory |
| `Graph.VisitOne` | forensic/src/findings.rs:379-399 | visiting a popped directory keeps the walk's invariant: visited ones are reachable and distinct, their subdirectories visited or queued |
| `Graph.SkipVisited` | forensic/src/findings.rs:380-382 | dropping a duplicate queue entry keeps it too |
| `Analyze.AuditVolume` | forensic/src/findings.rs:270-282 | succeeds if and only if the bootstrap and every reachable directory's trail can be read; then the findings are those of the bootstrap followed by those of the walk over exactly the reachable directories |
| `Analyze.AnalyzeImage` | forensic/src/findings.rs:263-283 | a truncated bootstrap is an error, a readable non-UDF source has no findings, and anything else is the audit of its volume, which fails if and only if a block of the bootstrap or of a reachable directory's trail cannot be read |
| `Analyze.AnalysisReports` | forensic/src/findings.rs:263-283 | an analysis reports a late file, or slack, exactly for the nodes of the tree whose own audit does |
| `Analyze.AnalysisReportsLate` | forensic/src/findings.rs:422-435 | a file is reported as late exactly when it is a node of the tree and its recorded local time is later than that at 16 of the File Set Descriptor, for nodes of the tree if and only if the digits of the two allow |
| `Analyze.AnalysisReportsSlack` | forensic/src/findings.rs:437-446 | a file that ends in its last block is reported for slack if and only if it is a node of the tree and a nonzero byte stands between its data and that block's end |
| `Analyze.VolumeTime` | core/src/lib.rs:973-988 | the volume's time is decoded from bytes 16 to 28 of the File Set Descriptor that was parsed |
| `Analyze.CleanAnalysisVouches` | forensic/src/findings.rs:263-283 | an analysis without tag findings vouches for the descriptors within u32 that determined the state, for all of them when the sequence is in range, and for every recognised descriptor the walk met |
| `Vfs.RunAgrees` | core/src/vfs.rs:182-258 | over every sequence of operations each cached entry is what its File Entry says, or what a listing said when there is none to read, except the seeded root |
| `Vfs.HistoryIndependent` | core/src/vfs.rs:182-211 | a readable node other than the root resolves to the same kind and size after any operations |
| `Vfs.UnreadableIsFidOnly` | core/src/vfs.rs:236-252 | a node without a readable File Entry resolves only as a listing classified it, a directory or of unknown kind, with size 0 |
| `Vfs.RootRecord` | core/src/vfs.rs:129-136 | after any operations the root's record is the seeded one until a listing names the root as a child, and its File Entry's from then on |
| `Vfs.RootDependsOnHistory` | core/src/vfs.rs:129-136 | so the root resolves to what its File Entry says if and only if a listing has named it or it is an empty directory |
| `Specimens.RootGrowsWhenListed` | core/src/vfs.rs:129-136 | on a mounted volume whose 36-byte root directory lists itself the size is 0 before the listing and 36 after it |
| `Vfs.ChildIsTruthful` | core/src/vfs.rs:236-252 | what a listing caches for a child agrees with the child's own File Entry |
| `Vfs.ListedResolves` | core/src/vfs.rs:236-256 | every child a listing shows resolves from then on, from its own File Entry or as some entry of that listing classified it |
| `Vfs.ListingOfReadable` | core/src/vfs.rs:212-235 | with a truthful cache a listing is the image's own; a readable directory is listed exactly when its data can be read, and a readable node of another type, the root aside, never is |
| `Vfs.ScratchIs` | core/src/vfs.rs:188-199 | a node resolves from a readable block of tag 260, 261 or 266 by its type code at 27 and its length at 56, and from no other |
| `Vfs.KindCodes` | core/src/vfs.rs:62-74 | the kinds of the File Type codes by number |
| `Vfs.Identities` | core/src/vfs.rs:152-163 | the identity a listing hands out leads back to its address; wider numbers and foreign identities are refused |
| `Vfs.ChunksJoin` | core/src/vfs.rs:363-386 | reading on where the last read stopped gives the bytes of one longer read |
| `Vfs.EqIgnoreCase` | core/src/vfs.rs:328-328 | equal length and equal characters, the case of ASCII letters aside |
| `Vfs.FindName` | core/src/vfs.rs:327-332 | the first child whose decoded name is equal in that sense, or none |
| `Vfs.CopyOut` | core/src/vfs.rs:381-384 | the front of the buffer is overwritten, the rest stays |
| `Vfs.UdfVfs.constructor` | core/src/vfs.rs:129-140 | a mounted volume starts with a cache that agrees with the image, and every operation keeps that |
| `Vfs.UdfVfs.Resolve` | core/src/vfs.rs:182-208 | cached, or read and then cached; an error leaves the cache alone |
| `Vfs.UdfVfs.CacheChildren` | core/src/vfs.rs:235-256 | every child is classified and cached, later ones of one address last |
| `Vfs.UdfVfs.DirChildren` | core/src/vfs.rs:212-258 | a listing succeeds exactly for what resolves as a directory and can be read; a failed one caches at most the node itself |
| `Vfs.UdfVfs.ReadDir` | core/src/vfs.rs:284-299 | succeeds for a directory exactly when its data can be read; then name, identity and kind of every child of the image's listing, in order |
| `Vfs.UdfVfs.Lookup` | core/src/vfs.rs:324-333 | the first child of the image's listing whose decoded name equals the one asked for, the case of ASCII letters aside, or none; fails exactly when the parent cannot be listed |
| `Vfs.UdfVfs.Meta` | core/src/vfs.rs:335-361 | kind and size as resolved; for every readable node but the root those of its own File Entry, whatever was done before |
| `Vfs.UdfVfs.CopyData` | core/src/vfs.rs:370-385 | the file's bytes from the offset, as many as there are or fit (`ChunkOf`, whose length and bytes `Chunk` states); unreadable data has none |
| `Vfs.UdfVfs.ReadAt` | core/src/vfs.rs:363-386 | refuses foreign identities and named streams, fails exactly when the node does not resolve; else byte i of the buffer is the data's byte at offset plus i for as many as there are or fit, 0 of them at the end or without data, and the rest of the buffer stays |
| `Vfs.UdfVfs.Extents` | core/src/vfs.rs:301-322 | one allocated run at image offset 0 of the resolved size, none for size 0; for every readable node but the root the size of its own File Entry |
| `Vfs.UdfVfs.ReadLink` | core/src/vfs.rs:388-412 | the decoded target cut to the caller's cap, empty for other nodes, an error when the node does not resolve or the link's data cannot be read |
| `Vfs.Open` | core/src/vfs.rs:118-141 | mounts exactly the images that parse to a state, with the root seeded as a directory of size 0 |
| `Mastering.AnchorFields` | core/src/lib.rs:385-398 | the anchor's fields stand where the standard's field sizes put them |
| `Mastering.AbsorbPd` | core/src/lib.rs:430-434 | the scan takes an encoded Partition Descriptor for its number and start |
| `Mastering.AbsorbLvd` | core/src/lib.rs:435-442 | the scan takes an encoded Logical Volume Descriptor for its file set, partition reference and maps |
| `Mastering.FsdFields` | core/src/lib.rs:488-508 | the root directory's block number of an encoded File Set Descriptor stands at 404, its recording time at 16 |
| `Mastering.RecordingTimeOf` | core/src/lib.rs:973-988 | the recording time of an encoded File Set Descriptor is what the volume's time is decoded from |
| `Mastering.ScanOfPlan` | core/src/lib.rs:410-445 | a sequence with an encoded Partition Descriptor and an encoded Logical Volume Descriptor, any descriptors of tags other than 0, 5, 6 and 8 in front of, between and behind them, ended by tag 8, tag 0 or the declared length, is scanned for exactly these two |
| `Mastering.PlanMounts` | core/src/lib.rs:180-205 | an image that carries an encoded volume, with such a sequence and any partition maps and reference, mounts with exactly the planned state, unless another candidate block size shows an anchor first |
| `Mastering.PlanMountsFirst` | core/src/lib.rs:180-205 | with 2048-byte blocks, the first candidate, it mounts without that proviso |
| `Mastering.PlanIsAnchor` | core/src/lib.rs:356-380 | such an image has an anchor at its own block size, and with 2048-byte blocks nothing comes first |
| `Mastering.NodeFields` | core/src/vfs.rs:188-199 | an encoded File Entry, base or extended, resolves to its file type and length, and its modification time is read from the right offset |

## Left out

- Volume recognition (`detect_udf`): a scan for two strings, with no bearing on the rest.
- Device faults of `Read` and `Seek`, the mutex and its poisoning: the image is immutable and operations happen one after another on one volume object, so the only read error is the end of the image.
- The sum `partition_start + lbn` in core/src/lib.rs:507 is a plain `u32` sum: leaving `u32` is an outcome of its own (`AddOverflow`), as in a build with overflow checks; a build without them wraps, and the wrapped address is not modelled.
- Decoding of OSTA CS0 identifiers to text: names are raw bytes, symbolic link identifiers go through a decoder parameter whose characters stand for the bytes of the text, and `lookup` compares the decoded text.
- Severity, category, code, note and display text of findings, and the texts inside errors; descriptor labels are a datatype instead of strings.
- Type 2 block resolution, continuation allocation extents and zero-fill of unrecorded extents: the source does not do them. Unrecorded extents and zero lengths are skipped, as in the code.
- The mounted volume's constants: deleted and unallocated streams, sector sizes, times, ownership and link counts.
- `read_extents_short` and `read_extents_long` differ only in their stride and are one method with a stride; the loop bodies of `parse_fids` and `walk_directory_tree` are methods of their own.
- The time zone and the fractions of a second of timestamps, which the source ignores: what is proved about late files is about recorded local times to the second.
- A Hamming distance of the CRC: the source promises none; bursts, odd numbers of flips and the exact collision criterion are proved.
- The directory walk's comment promises breadth first; `Vec::pop` takes the last entry, so the walk is depth first, and what is proved does not depend on the order. The comments of `analyze` also promise an audit of File Identifier Descriptor tags; the code audits the tags of File Entry blocks only, and so does the model.
- The comment on the File Set Descriptor adds its fields up to 408 bytes; the code and the standard put the root directory's ICB at 400, and so does the model.
- Slack.SlackLocatedExactly: the source calls the inspected block the true final block; that is false for a preallocated tail (Specimens.PreallocatedTailMissed), so the exact condition is stated instead.
- Timestamps.TextOrderIsTimeOrder: the string comparison of times is chronological only under the stated condition on the digits, because hour, minute and second are unchecked bytes.
- Vfs.RunAgrees: leaves out the root's cached record, which Vfs.RootRecord states exactly: the seed until a listing names the root.
- Vfs.UdfVfs.Extents: leaves out the run's flags, which are always the default.
- Bootstrap.CleanAuditVouches: says nothing of sectors whose address leaves u32; the auditor's saturated address never reaches them (Specimens.EdgeGoesUnaudited).
