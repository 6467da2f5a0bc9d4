# TROE image tools: a Dafny model

TROE builds its boot and storage media with hosted tools that come in pairs: a strict
encoder, and an independent verifier that decodes the result again. This project models
those tools and the Rust source scanner of the repository policy, and proves what the
pairs promise each other.

| part | modules |
|---|---|
| bytes, packed records, region layouts, UTF-8 | `ByteCodec`, `Struct`, `Regions`, `Utf8` |
| reflected 32-bit CRCs | `Crc` |
| ext4 profile verifier | `Ext4Format`, `Ext4Ownership`, `Ext4Files`, `Ext4Directory`, `Ext4Records`, `Ext4Tree`, `Ext4Walk`, `Ext4Verifier`, `Ext4Damage` |
| ELF64 to KEX translator and KEX verifier | `Elf`, `Coverage`, `Kex`, `KexVerify`, `Convert` |
| Rust lexer, cfg analysis, source transformations | `RustLexer`, `RustPolicy`, `CfgTree`, `CfgSoundness`, `RustRemoval`, `RustTokens`, `RustItems`, `RustFiles` |
| GPT codec | `GptHeader`, `Gpt`, `GptCodec` |
| FAT32 EFI System Partition and FAT16 boot image | `Fat`, `FatDirectory`, `Fat32Esp`, `Fat16`, `Fat16Codec` |
| KEFS root image | `KefsPath`, `Kefs`, `KefsSelect` |
| dual-slot recovery | `DualSlot` |
| unclean-unmount marker repair | `SharedRepair` |

Conventions:

- A byte is an integer from 0 to 255; all other integers are unbounded, and field widths
  are written out where the tools pack or unpack them. Checksums use a recursive integer
  exclusive-or, so nothing depends on bit-vector arithmetic.
- Every exception of the tools (`ValueError`, `KeyError`, `struct.error`) is a rejection:
  a method returns `None` or `false`.
- A codec is stated once for both directions. Its parser returns a value exactly when the
  input is the encoding of a valid value, and its builder returns the encoding of exactly
  the valid values. The round trip in each direction, the builder's self-check never firing
  and the canonical form of every accepted input all follow from those contracts together
  with the uniqueness lemma beside them.
- Loops that fill a buffer or grow a set keep that shape, and are proved against functions
  of their inputs. Facts about those functions are separate lemmas.
- Self-checks of the tools that can never fire are written as `assert`.

`dafny verify dfyconfig.toml` checks the whole project.

## Model

| member | source | states |
|---|---|---|
| `Crc.FoldByte` | tools/mkstorage.py:563-565 | the eight conditional shifts are the eight polynomial division steps, and stay in 32 bits |
| `Crc.ComputeCrc32c` | tools/mkstorage.py:559-566 | the loop computes the CRC register of the whole message from any seed, and stays in 32 bits |
| `Crc.CrcAppend` | tools/mkstorage.py:559-566 | the checksum of a concatenation continues from the checksum of the first part |
| `Crc.BitStepInjective` | tools/mkstorage.py:565 | one step is injective on 32-bit states whenever bit 31 of the polynomial is set |
| `Crc.ShortWordsDiffer` | tools/mkstorage.py:559-566 | from any state, two different words of the same length up to four bytes give different registers |
| `Crc.StatesStayDistinct` | tools/mkstorage.py:559-566 | two different registers stay different after any common message |
| `Crc.BurstDetected` | tools/mkstorage.py:559-566 | for every seed, messages of equal length that differ only inside four consecutive bytes have different checksums |
| `Crc.BurstDetectedByCrc32` | scripts/test-qemu.py:370-375 | the same for zlib's complemented CRC-32 (section 8 of RFC 1952) |
| `Ext4Format.SuperblockBurstRefused` | tools/mkstorage.py:750-793 | no corruption of an accepted superblock confined to four consecutive covered bytes is accepted |
| `Ext4Format.BitsAddUp` | tools/mkstorage.py:902-914 | clear and set bits of a bitmap together are all of its bits |
| `Ext4Format.FixedBlockCount` | tools/mkstorage.py:865-882 | the superblock, descriptor table, bitmaps and inode table are 260 distinct blocks |
| `Ext4Ownership.ClaimedCount` | tools/mkstorage.py:1037-1040 | claimed blocks number exactly the fixed metadata plus all extent lengths |
| `Ext4Ownership.BlocksConserved` | tools/mkstorage.py:729-735 | on every accepted image fixed metadata, extent lengths and the superblock free count add up to the volume |
| `Ext4Ownership.OwnerIsUnique` | tools/mkstorage.py:873-882 | two owners of one block are the same owner: a metadata role, or one position of one extent of one inode |
| `Ext4Ownership.AllocatedIffOwned` | tools/mkstorage.py:729-735 | the block bitmap marks a block exactly when something owns it |
| `Ext4Files.ExtentsAreSane` | tools/mkstorage.py:1017-1042 | accepted extents ascend without overlap and stay inside the volume and the file |
| `Ext4Files.ReadFile` | tools/mkstorage.py:1244-1260 | the block-wise reader returns, byte for byte, the mapped block's byte or zero in a hole or unwritten extent; files over the ceiling are refused; the early break is never taken |
| `Ext4Files.CheckJournal` | tools/mkstorage.py:1136-1170 | accepts exactly the hole-free, written, pinned-length journals with a consistent superblock |
| `Ext4Files.JournalIsUnreadable` | tools/mkstorage.py:1157-1163 | the pinned journal is longer than any file the verifier reads |
| `Ext4Directory.TailBindsInode` | tools/mkstorage.py:1180-1194 | a directory block whose tail is valid for one inode number is valid for no other number of the same generation |
| `Ext4Directory.DirectoryBurstRefused` | tools/mkstorage.py:1180-1194 | no corruption of an accepted directory block confined to four consecutive bytes is accepted, wherever they lie |
| `Ext4Directory.ParseRecords` | tools/mkstorage.py:1195-1241 | the record loop of one block computes the entry list after it, or refuses |
| `Ext4Directory.DirectoryEntries` | tools/mkstorage.py:1172-1242 | the block loop computes the entry list of the whole directory, or refuses |
| `Ext4Directory.DirectoryIsWellFormed` | tools/mkstorage.py:1213-1235 | a directory that parses has distinct, bounded, well-formed UTF-8 names of allocated inodes and at most 4096 entries |
| `Ext4Records.ParsesLayout` | tools/mkstorage.py:1195-1241 | every block laid out from acceptable free and live records parses to exactly their live entries, in order |
| `Ext4Records.ParsedIsLayout` | tools/mkstorage.py:1195-1241 | every accepted block is such a layout: records tile it up to the checksum tail and nothing else is read |
| `Ext4Tree.NamedExactlyOnce` | tools/mkstorage.py:1307-1326 | every active inode but the root and the journal is named by exactly one non-dot entry of exactly one directory |
| `Ext4Tree.OnlyOrdinaryInodesNamed` | tools/mkstorage.py:1244-1246 | no entry names the root, the journal or an inactive inode |
| `Ext4Tree.DotDotIsParent` | tools/mkstorage.py:1295-1296 | the dot-dot entry of a directory leads to the directory that names it |
| `Ext4Tree.NoCycle` | tools/mkstorage.py:1313-1316 | no chain of directories returns to where it began |
| `Ext4Walk.CheckListing` | tools/mkstorage.py:1291-1306 | a directory's dot, dot-dot and visible names are the expected ones, and the visible entries are returned |
| `Ext4Walk.CheckTarget` | tools/mkstorage.py:1307-1323 | an entry's inode is active with the entry's kind and, for a file, the expected bytes |
| `Ext4Walk.VerifyExactTree` | tools/mkstorage.py:1262-1326 | the breadth-first walk terminates and accepts exactly when the volume has the expected tree |
| `Ext4Verifier.FieldsMatch` | tools/mkstorage.py:778-780 | all fixed superblock fields have their required values |
| `Ext4Verifier.ScanBitmap` | tools/mkstorage.py:902-931 | the set positions, the clear count and the padding of a bitmap |
| `Ext4Verifier.CountTrailing` | tools/mkstorage.py:932-936 | the unused positions at the top of the inode bitmap |
| `Ext4Verifier.Verifier.VerifySuperblock` | tools/mkstorage.py:750-829 | accepts exactly the superblocks of the profile and records the free counts |
| `Ext4Verifier.Verifier.VerifyPlacement` | tools/mkstorage.py:864-882 | accepts exactly disjoint metadata inside the volume and records it as referenced |
| `Ext4Verifier.Verifier.VerifyGroupsAndBitmaps` | tools/mkstorage.py:831-968 | accepts exactly the groups of the profile and records the allocated blocks and inodes |
| `Ext4Verifier.Verifier.ClaimExtent` | tools/mkstorage.py:1037-1040 | adds an extent's blocks to the referenced ones exactly when none was referenced |
| `Ext4Verifier.Verifier.ParseExtents` | tools/mkstorage.py:1000-1051 | accepts exactly the ordered, fresh extent lists and adds their blocks to the referenced ones |
| `Ext4Verifier.Verifier.VerifyInode` | tools/mkstorage.py:1059-1120 | one inode-table entry is accepted exactly when it decodes and its blocks are fresh; a wrong timestamp alone is reported separately |
| `Ext4Verifier.Verifier.VerifyInodesAndExtents` | tools/mkstorage.py:1053-1127 | accepts exactly when every inode decodes, no block is claimed twice and the counters agree; the referenced blocks and inode records are then exactly those of the image |
| `Ext4Verifier.Verifier.Verify` | tools/mkstorage.py:725-740 | accepts exactly the images that meet every part of the profile |
| `Ext4Verifier.AcceptedAllocates` | tools/mkstorage.py:725-740 | an accepted image meets the hypotheses of the ownership results |
| `Ext4Verifier.AcceptedInodeNamedOnce` | tools/mkstorage.py:1307-1326 | on an accepted image every active inode but the root and the journal has exactly one name |
| `Ext4Damage.DirectoryDamageRefused` | tools/mkstorage.py:1172-1194 | an accepted image with up to four consecutive bytes of one directory's block changed is not accepted, whatever content is expected |
| `Elf.PowerOfTwoIsExact` | tools/elf2kex.py:150-151 | the bit trick recognises exactly the powers of two |
| `Elf.CollectLoads` | tools/elf2kex.py:382-471 | the program-header loop accepts exactly the allowed tables and returns the loads |
| `Elf.CheckLayout` | tools/elf2kex.py:473-494 | the layout loop accepts exactly ascending, page-disjoint loads in the window whose entry is executable |
| `Elf.ValidateSections` | tools/elf2kex.py:191-324 | the section loop accepts exactly the allowed section tables and returns the described ranges |
| `Coverage.SortRanges` | tools/elf2kex.py:520 | a sorted permutation of the described ranges |
| `Coverage.MergeRanges` | tools/elf2kex.py:519-524 | separated ranges that describe the same bytes and reach the same end |
| `Coverage.Sweep` | tools/elf2kex.py:525-531 | over separated ranges the sweep accepts exactly the covered files |
| `Coverage.CheckCoverage` | tools/elf2kex.py:509-531 | sort, merge and sweep accept exactly when every nonzero byte is described and the furthest described end is the end of the file |
| `Kex.MaximumTablePages` | tools/elf2kex.py:94-101 | the loop computes the table-page bound |
| `Kex.TablePagesMonotone` | tools/elf2kex.py:94-101 | the bound grows with the pages mapped |
| `Kex.ImageSpan` | tools/elf2kex.py:109-111 | the least aligned span that holds the image |
| `Kex.HeaderTiles` | tools/elf2kex.py:562-607 | the header fields tile the header exactly |
| `Kex.CeilingsNeverBind` | tools/elf2kex.py:661-664 | disjoint records inside the span can exceed neither the resident-page nor the encoded-byte ceiling |
| `Kex.FieldsFit` | tools/elf2kex.py:702-749 | every field of a well-formed container fits its packed width |
| `KexVerify.DecodeRecords` | tools/elf2kex.py:620-654 | the record loop decodes exactly the encoded records |
| `KexVerify.DecodeKex` | tools/elf2kex.py:547-666 | returns a container exactly when the artifact is, byte for byte, the encoding of that well-formed container for the target |
| `KexVerify.VerifyKex` | tools/elf2kex.py:547-666 | accepts exactly such artifacts whose decoded values meet the caller's expectations |
| `KexVerify.EncodeInjective` | tools/elf2kex.py:547-666 | two containers with the same encoding are equal, target included |
| `Convert.ParseElf` | tools/elf2kex.py:327-532 | accepts exactly the ELF files of the profile and returns their entry, target and loads |
| `Convert.EntryStaysExecutable` | tools/elf2kex.py:535-544 | the converted entry lies in an executable record |
| `Convert.ConversionIsWellFormed` | tools/elf2kex.py:669-763 | acceptance and policy make the container well formed |
| `Convert.WriteHeader` | tools/elf2kex.py:702-736 | the packed writes produce the canonical header |
| `Convert.WriteArtifact` | tools/elf2kex.py:702-754 | the buffer filled in place is the canonical encoding |
| `Convert.ConvertElf` | tools/elf2kex.py:669-763 | succeeds exactly on convertible inputs, returns the encoding of their container, and its closing verification never rejects |
| `Convert.MemoryOfRecord` | tools/elf2kex.py:535-544 | loading keeps every record's bytes: no record overwrites another |
| `Convert.PagesHaveOneOwner` | tools/elf2kex.py:475-487 | no page belongs to two records |
| `Convert.MeaningPreserved` | tools/elf2kex.py:669-754 | every address of every load holds, after loading the artifact, the ELF byte (zero past the file bytes) and the ELF permission; the entry address is kept |
| `Convert.NothingElseMapped` | tools/elf2kex.py:669-754 | every mapped byte lies in one load's page rounding, lies below the image end, carries that load's permission and ELF byte, and is zero past the load's file bytes up to the end of its page |
| `Convert.PermissionsAreExclusive` | tools/elf2kex.py:446-447 | a record is writable exactly when its load is, executable exactly when its load is, and never both |
| `RustLexer.FindFrom` | scripts/repository_policy.py:240-262 | the search loop finds the first occurrence |
| `RustLexer.BlockCommentEnd` | scripts/repository_policy.py:243-257 | the depth loop finds the end of a nested block comment |
| `RustLexer.QuotedEnd` | scripts/repository_policy.py:263-272 | the escape-aware loop finds the closing quote |
| `RustLexer.LiteralOrCommentEnd` | scripts/repository_policy.py:234-277 | the end of the comment or literal at a position, none at code |
| `RustLexer.CodeWithoutCommentsOrLiterals` | scripts/repository_policy.py:430-452 | the loop computes the blanked text, of the same length |
| `RustLexer.BlankedAt` | scripts/repository_policy.py:430-452 | code characters and every newline survive in place, everything else becomes a space |
| `RustLexer.NothingStartsInBlanked` | scripts/repository_policy.py:430-452 | no comment or literal starts anywhere in the blanked text |
| `RustLexer.BlankingIsIdempotent` | scripts/repository_policy.py:430-452 | blanking twice is blanking once |
| `RustPolicy.CfgAttributeAt` | scripts/repository_policy.py:280-307 | the predicate text and the end of a balanced cfg attribute |
| `RustPolicy.PredicateTerms` | scripts/repository_policy.py:310-331 | the split at commas of depth zero outside comments and literals |
| `RustPolicy.TermsAreShorter` | scripts/repository_policy.py:334-350 | the recursion on terms terminates |
| `CfgTree.CommentIsSpan` | scripts/repository_policy.py:243-257 | every nested block comment is recognised up to exactly its own closing delimiter, whatever follows |
| `CfgTree.LineIsSpan` | scripts/repository_policy.py:240-242 | every line comment is recognised up to its newline |
| `CfgTree.LiteralIsSpan` | scripts/repository_policy.py:258-272 | every escaped or raw string literal is recognised up to exactly its own terminator, whatever follows |
| `CfgTree.ScannerInvertsPrinter` | scripts/repository_policy.py:280-307 | on every printed attribute the scanner returns exactly the printed predicate and the attribute's end |
| `CfgTree.SplitterInvertsPrinter` | scripts/repository_policy.py:310-331 | on every printed argument list the splitter returns the printed arguments |
| `CfgSoundness.AnswerIsExact` | scripts/repository_policy.py:334-350 | on every printed predicate, however spaced and commented, the answer is yes exactly on the shapes that `Yes` describes on the syntax tree |
| `CfgSoundness.TidyAnswer` | scripts/repository_policy.py:334-350 | where no line comment behind an argument ends in a closing parenthesis, those shapes are a bare `test` and an `all` with a qualifying argument |
| `CfgSoundness.UntidyAnswer` | scripts/repository_policy.py:334-350 | with such a comment the answer can be yes on a third shape |
| `CfgSoundness.AnswerIsSound` | scripts/repository_policy.py:334-350 | on every printed predicate, however commented, a yes means that no configuration without `test` satisfies it |
| `CfgSoundness.AnswerIsNotComplete` | scripts/repository_policy.py:334-350 | the converse fails: `any(test)` needs `test` and is answered no |
| `RustRemoval.AnnotatedItemEnd` | scripts/repository_policy.py:353-395 | the loop computes the item's end |
| `RustRemoval.ItemEndsAtFirstStop` | scripts/repository_policy.py:353-395 | the end is the first position, outside literals, where the item stops |
| `RustRemoval.DepthsStayOpen` | scripts/repository_policy.py:353-395 | at every prefix of a removed item the brace depth and the pooled bracket depth, as the scan counts them, are non-negative |
| `RustRemoval.OutsideTestConfiguration` | scripts/repository_policy.py:398-427 | the loop computes the source without its test items |
| `RustRemoval.RemovalCutsSpans` | scripts/repository_policy.py:398-427 | the result is the source with disjoint ascending spans deleted and nothing else changed |
| `RustRemoval.EverySpanIsARemoval` | scripts/repository_policy.py:398-427 | every deleted span starts at an attribute whose predicate qualified and ends at its item's end |
| `RustRemoval.RemovedItemsAreTestOnly` | scripts/repository_policy.py:398-427 | the predicate of a deleted item holds in no configuration without `test`, and the depths that the scan counts inside the item are never negative |
| `RustTokens.EscapedQuoteRead` | scripts/repository_policy.py:231 | a character literal that starts with a backslash is read as exactly itself if and only if it holds no further quote |
| `RustTokens.QuoteRead` | scripts/repository_policy.py:231 | a plain character literal is read as exactly itself if and only if its character is not a quote |
| `RustTokens.SpanTokenRead` | scripts/repository_policy.py:234-277 | every comment, string, raw string and such character literal is read as exactly itself, whatever follows |
| `RustTokens.CodeTokenRead` | scripts/repository_policy.py:234-277 | nothing starts inside a word, raw identifier, lifetime, operator or division sign |
| `RustTokens.BlankingIsExact` | scripts/repository_policy.py:430-452 | on every printed token tree blanking keeps the code tokens and blanks exactly the comments and literals |
| `RustItems.NodeScanned` | scripts/repository_policy.py:353-395 | on every printed node the scan stops exactly at the first semicolon or comma outside all delimiters or at the end of the first brace block, and otherwise goes on behind the node |
| `RustItems.DeletionStaysInside` | scripts/repository_policy.py:353-395 | the deletion stays inside the annotated node if and only if the node has such a place or is followed by a comma or a closing delimiter |
| `RustItems.ItemsAreContained` | scripts/repository_policy.py:353-395 | for every node that ends in a semicolon or a brace block the deletion stays inside it, whatever follows |
| `RustItems.RemovedTextIsTheNode` | scripts/repository_policy.py:398-427 | in a whole file, a deleted span is test-only and stays inside the annotated node under the same condition, and always for items |
| `RustItems.GenericParameterOverruns` | scripts/repository_policy.py:353-395 | an annotated last generic parameter takes the rest of the function with it |
| `RustItems.QuoteLiteralOverruns` | scripts/repository_policy.py:231 | an escaped quote before a quoted brace makes the deletion run past its item and the closing brace of the enclosing block |
| `RustItems.QuoteLiteralShows` | scripts/repository_policy.py:231 | the same text keeps a quoted brace visible after blanking |
| `RustFiles.RemovalIsExact` | scripts/repository_policy.py:398-427 | on every file of tokens, blocks, `cfg` attributes and test-only items that stop at their own end, the removal deletes exactly the test-only items, at every depth, and keeps everything else |
| `GptHeader.HeaderSectorUnique` | tools/mkcloud.py:226-263 | a header has exactly one sector, checksum included |
| `GptHeader.BuildHeader` | tools/mkcloud.py:226-263 | the writes produce the sector of every header that fits |
| `GptHeader.ParseHeader` | tools/mkcloud.py:365-407 | returns a header exactly when the sector is that header's |
| `Gpt.Apart` | tools/mkcloud.py:308-322 | listed partitions follow each other without overlap |
| `Gpt.ImageUnique` | tools/mkcloud.py:423-530 | a valid disk has exactly one image: every byte is determined |
| `GptCodec.BuildArray` | tools/mkcloud.py:304-324 | accepts exactly the valid partition lists and produces their entry array |
| `GptCodec.BuildGpt` | tools/mkcloud.py:287-362 | builds the image of exactly the valid disks; the closing parse returns its input |
| `GptCodec.DecodeEntry` | tools/mkcloud.py:482-510 | returns a partition exactly when the entry is its canonical entry and it may follow the earlier ones |
| `GptCodec.ParseEntries` | tools/mkcloud.py:469-516 | returns the partitions of exactly the canonical entry arrays |
| `GptCodec.CheckGaps` | tools/mkcloud.py:518-525 | accepts exactly when every unused byte is zero |
| `GptCodec.ParseHeaders` | tools/mkcloud.py:434-467 | returns the disk identity exactly when both headers and both arrays agree |
| `GptCodec.ParseGpt` | tools/mkcloud.py:423-530 | returns a disk exactly when the disk is valid and the image is its image |
| `Regions.ConcatByRegions` | tools/mkcloud.py:907-934 | an image is its regions in order exactly when every slice is right |
| `Fat.BuildTable` | tools/mkfat.py:196-213 | the loops fill the reserved entries and both chains, and leave the rest zero |
| `Fat.CheckTable` | tools/mkcloud.py:1117-1133 | the entry loop accepts exactly the expected table |
| `Fat.ChainUnique` | tools/mkfat.py:328-338 | a chain is determined by its first cluster |
| `Fat.RunsAreChains` | tools/mkfat.py:204-212 | each file's chain is its own run of consecutive clusters |
| `Fat.ChainsTile` | tools/mkfat.py:318-326 | the two file chains are disjoint and are exactly the allocated file clusters |
| `Fat.ClustersConserved` | tools/mkcloud.py:1135-1143 | zero entries, file clusters and directory clusters are all the data clusters |
| `FatDirectory.BootDirectoryReads` | tools/mkcloud.py:1075-1083 | names, sizes and presence read back from the BOOT directory |
| `FatDirectory.PaddedByTail` | tools/mkcloud.py:1145-1159 | a run of clusters is a padded payload exactly when its tail is zero |
| `Fat32Esp.EspIsLaidOut` | tools/mkcloud.py:907-972 | a partition is the image of the files exactly when each region, at its offset, is the one they need |
| `Fat32Esp.ExtractFiles` | tools/mkcloud.py:980-1164 | returns the files exactly when the partition is the image of those files |
| `Fat32Esp.BuildEsp` | tools/mkcloud.py:889-977 | builds the image of exactly the fitting files; the closing extraction returns its input |
| `Fat32Esp.FsInfoCountsFree` | tools/mkcloud.py:875-886 | the FSInfo free count is the number of zero FAT entries over the data clusters |
| `Fat16.EnumerateDirectory` | tools/mkfat.py:70-84 | returns the entries exactly when the directory is those entries, none starting with zero, and then zeros |
| `Fat16.RequireDirectory` | tools/mkfat.py:87-90 | the directory holds exactly the expected entries |
| `Fat16.ImageIsLaidOut` | tools/mkfat.py:113-193 | an image holds the files exactly when each region is the one they need |
| `Fat16Codec.ListsByConcat` | tools/mkfat.py:70-90 | listing entries is the same as being their concatenation and zeros |
| `Fat16Codec.ExtractChain` | tools/mkfat.py:328-341 | following a chain of the expected table reads the file's run; the chain checks never fire and only nonzero padding refuses |
| `Fat16Codec.ReadBootDirectory` | tools/mkfat.py:273-311 | returns the file extents exactly when the BOOT listing is canonical |
| `Fat16Codec.ExtractFiles` | tools/mkfat.py:216-359 | returns the files exactly when the image is the image of those files |
| `Fat16Codec.Build` | tools/mkfat.py:100-193 | builds the image of exactly the fitting files, the empty executable included |
| `KefsPath.Trichotomy` | tools/mkefs.py:138-139 | byte-lexical order is total and strict |
| `KefsPath.ParentIsPrefix` | tools/mkefs.py:140-142 | a parent is a proper prefix and sorts before its child |
| `KefsPath.SplitJoined` | tools/mkefs.py:129-137 | splitting at slashes distributes over joining with one |
| `Kefs.Encode` | tools/mkefs.py:75-90 | produces the image of exactly the lists that fit the fields |
| `Kefs.ParentComesFirst` | tools/mkefs.py:42-43 | in a tree sorted by path bytes every parent comes before its children |
| `Kefs.SortedTree` | tools/mkefs.py:138-142 | a list sorted by path bytes is accepted exactly when every parent is a directory of it |
| `Kefs.DecodeRecord` | tools/mkefs.py:123-147 | returns an entry exactly when the record at the offset is that well-formed entry's |
| `Kefs.Decode` | tools/mkefs.py:111-156 | returns a list exactly when the list is well formed and the image is its image |
| `KefsSelect.SortByPath` | tools/mkefs.py:68 | a sorted permutation of the same total size that keeps the order of entries with equal paths |
| `KefsSelect.DistinctNeighbours` | tools/mkefs.py:69-71 | in a sorted list distinct neighbours mean all paths are distinct |
| `KefsSelect.MovedPathOk` | tools/mkefs.py:66-67 | a normalized path below the selected architecture stays normalized under /bin |
| `KefsSelect.ProjectionIsWellFormed` | tools/mkefs.py:46-72 | the sorted projection of a tree is accepted by the decoder |
| `KefsSelect.CollisionIsExact` | tools/mkefs.py:52-71 | on a source with distinct paths the projection repeats a path exactly when a neutral entry `/bin/r` stands beside the selected architecture's entry for `r` |
| `KefsSelect.SelectArchitecture` | tools/mkefs.py:46-72 | succeeds exactly for a known architecture with its directory and no colliding path; the result is sorted, has exactly the projected entries and payloads, and is well formed when the source is a tree |
| `DualSlot.BurstInvalidates` | scripts/test-qemu.py:356-376 | no change to four consecutive data bytes that leaves the checksum field alone keeps the data sector valid |
| `DualSlot.CommitIsDetermined` | scripts/test-qemu.py:356-376 | a data sector has only one valid commit sector |
| `DualSlot.SlotBurstInvalidates` | scripts/test-qemu.py:356-376 | no change to four consecutive bytes anywhere in a slot, checksum fields included, leaves it valid |
| `DualSlot.DualSlotState` | scripts/test-qemu.py:344-384 | the loop returns the newest valid slot, none without a unique newest one |
| `DualSlot.OlderSlotIsIrrelevant` | scripts/test-qemu.py:377-384 | bytes that do not validate in the older slot leave the recovered state unchanged |
| `DualSlot.CorruptLatestStateSlot` | scripts/test-cloud-hypervisor.py:405-418 | flips one bit of the newest slot's payload and changes nothing else; refuses unless both slots name a generation |
| `DualSlot.CorruptionFallsBack` | scripts/test-cloud-hypervisor.py:392-418 | with two valid slots of distinct generations, after the corruption the reader returns exactly the older generation and payload |
| `SharedRepair.Fat32Layout` | tools/mkshared.py:78-98 | the iteration reaches its fixed point, which is the canonical layout |
| `SharedRepair.LayoutIsUnique` | tools/mkshared.py:78-98 | the partition has no other layout |
| `SharedRepair.WriteIsLocal` | tools/mkshared.py:364-371 | a state-byte write changes no other validated structure |
| `SharedRepair.ClearedIsClean` | tools/mkshared.py:256-265 | clearing the state byte of an accepted boot sector gives the clean sector and leaves the other copy alone |
| `SharedRepair.RepairedIsClean` | tools/mkshared.py:358-375 | the repaired image validates as clean |
| `SharedRepair.CrashIsRepairable` | tools/mkshared.py:363-371 | whichever of the two writes reached the disk, the image still validates, needs repair exactly when a boot sector is still marked, and its repair gives the same image |
| `SharedRepair.CleanNeedsNothing` | tools/mkshared.py:360-361 | a second repair changes nothing |
| `SharedRepair.RepairImage` | tools/mkshared.py:358-375 | refuses, leaves a clean image alone, or clears exactly the two state bytes; the result verifies |

## Findings

The removal of test items says of itself that it can never drop code a shipped build
compiles (scripts/repository_policy.py:404-406). It can, in two ways.

| source | what happens | exact condition | witness |
|---|---|---|---|
| scripts/repository_policy.py:231 | the literal of an escaped quote has four characters, of which the pattern takes three; the last quote then pairs with the next one, and text behind it counts as code or as literal the wrong way round | a literal that starts with a backslash is read whole if and only if it holds no further quote: `RustTokens.EscapedQuoteRead` | `RustItems.QuoteLiteralOverruns`, `RustItems.QuoteLiteralShows` |
| scripts/repository_policy.py:353-395 | an annotated node without a semicolon, comma or brace block of its own, such as the last generic parameter, is deleted together with what follows it | the deletion stays inside the node if and only if the node has such a place or a comma or closing delimiter follows: `RustItems.DeletionStaysInside` | `RustItems.GenericParameterOverruns` |

Otherwise it is contained: every node that ends in a semicolon or a brace block keeps its
deletion inside (`RustItems.ItemsAreContained`), and a file whose test-only items stop at their
own end loses exactly those items (`RustFiles.RemovalIsExact`).

## Left out

- CfgTree.ScannerInvertsPrinter: printed predicates use ASCII identifiers, quoted and raw string values, white space, nested block comments and line comments; other Rust tokens do not occur in a `cfg` predicate and are not printed.
- RustFiles.RemovalIsExact: an unbalanced `cfg` attribute, which the tool keeps as text, does not occur in the printed files; an item with a brace block before its end leaves its remainder behind, for which `RustItems.NodeScanned` gives the place.
- Kex.TablePagesMonotone: says nothing about `maximum_table_pages` as a bound on real page tables, because the kernel's region placement is not part of this model.
- RustRemoval.DepthsStayOpen: bracket balance of a whole removed item is not claimed, because the scanner stops at the first brace that closes to depth zero even inside brackets.
- LBAs and entry kinds are natural numbers, so negative numbers, which the tools refuse, are not inputs of the model.
- The group count of the ext4 profile is fixed at one by its geometry, so the per-group loops are a single pass; the truncated 16-bit descriptor and bitmap checksums get no detection result.
- Field-by-field comparisons of a fixed boot sector or FSInfo sector appear as one comparison with the whole sector, whose bytes they cover.
- Walking a source directory, path encoding and reading files in `collect`; only its ordering rule is modelled.
- The BMNT, PRGN, SCFG, SACT and CSPK encoders, the runtime manifests, and the other GPT wrappers of tools/mkstorage.py: fixed layouts that would add easier members.
- SHA-256, tool version banners, timestamps, and running mke2fs or e2fsck.
- Launchers, serial sessions, network peers, downloads, firmware builds, file locking and flushing.
- Baseline statistics and IPC record validators.
- Error texts: all rejections are alike.
