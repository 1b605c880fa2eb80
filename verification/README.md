# Amalgamate: a verified model of the `.DS_Store` reader

libamalgamate opens a `.DS_Store` file, loads the state of its buddy allocator, walks a B-tree whose nodes
are scattered over the allocator's blocks, and shows every record to a callback. Icon records can contain
Mac OS aliases, which it parses as well. This project models those three parts over one abstraction, a byte
sequence with a position, and proves what they accept, what they report, and when they return at all.

## How it is built

Each format is described twice. An *encoder* says which bytes stand for a value; a *decoder* follows the
program branch by branch. For every format there is one lemma named `...Iff`: the decoder accepts exactly
the encodings and consumes exactly their bytes. The imperative code (a `File` object with one cursor, record,
header and allocator objects with their buffers) is proved against the decoders, so what it does is
connected to the encodings in both directions. What both sides share, such as four-character codes, byte order,
offsets inside an address, padding and capacities, is pinned by statements over literal bytes and numbers.

| file | contents |
|---|---|
| `Bytes.dfy`, `Files.dfy` | big-endian numbers; the stdio stream |
| `Records.dfy` | the variable-length records |
| `Addresses.dfy` | packed block addresses and the power function they use |
| `Trees.dfy` | trees, their order and size, and `TreeAt`: the bytes of a file hold this tree |
| `Walks.dfy`, `Divergence.dfy`, `Truncation.dfy` | the recursive walk: result, termination and bounds, cut-off files |
| `Order.dfy`, `Disorder.dfy` | when the records come out sorted, and a file where they do not |
| `Enumeration.dfy` | the walk as the program does it, with one shared cursor |
| `Allocators.dfy`, `AllocatorOverruns.dfy`, `AllocatorStates.dfy`, `AllocatorIO.dfy` | the allocator's layout, files that overrun its buffers, the buffers in memory, reading and writing |
| `Headers.dfy`, `Stores.dfy`, `StoreTruncation.dfy`, `StoreIO.dfy` | file header, header block, opening, enumerating, cut-off files, writing |
| `Layouts.dfy` | a file for every tree that fits, numbered and laid out block by block |
| `Spellings.dfy`, `SpelledStores.dfy` | numbers, records, headers and a whole store, spelled out byte by byte |
| `Aliases.dfy`, `AliasIO.dfy`, `NestedAliases.dfy` | alias records, their parser, aliases inside aliases |
| `AliasLayouts.dfy` | alias records as a writer lays them out: what is accepted and expanded, told from the values |

## Main results

- **The walk is sound and complete** (`WalkDoneIff`, `WalkSettled`): enumeration returns 0 exactly when the
  file holds a tree at the block, and reports exactly its records in order. A file holds at most one tree at
  a block (`TreeUnique`).
- **Divergence is characterised exactly** (`DivergesIffReenters`, `DepthBound`): the program has no cycle
  check. It recurses for ever if and only if it re-enters a block that is still on its call stack, and
  otherwise it never nests more calls than the address table has entries. `SelfChildDiverges` gives such a file.
- **Leaving the table is characterised exactly** (`LeavesIffEscapes`, `SurvivesIff`): the range check tests
  the root's number on every call, never the visited block's. The walk leaves the address table if and only
  if a chain of its calls gets to a number outside it. `RangeCheckMissesChildren` gives such a file, and
  `WalkSettled` puts the four possible endings together.
- **The cursor comes back** (`EnumBlocks`, `EnumEntry`): each successful call leaves the file position where
  it found it, and what is reported does not depend on where the cursor stood.
- **Truncation never invents records** (`BlockTruncated`, `EnumerateTruncated`), wherever the file is cut.
- **End to end** (`EnumerateIff`, `EnumerateStoresIff`, `SerializeEnumerates`): opening and enumerating a file
  succeeds exactly on images of stores. Every tree that fits is held by one: its blocks are numbered and laid
  out one after the other, and enumerating the file, into memory that held anything, gives the tree's records in
  order, whatever block sizes the addresses carry. `StoreSpelled` says so of a store given byte by byte. Without
  a DSDB entry nothing is opened (`NoDsdbRejected`).
- **Write and read against each other** (`WriteReadIff`, `ReadWriteIff`, `WrittenStoreIff`): the writer always
  writes 256 addresses and the reader reads a rounded-up number, so both round trips hold if and only if the
  block count is between 1 and 256. A new file holds header, zeros and allocator (`NewStoreFile`). A header
  survives the allocator written after it if and only if the overlapping bytes agree; an offset of at least 32
  rules out any overlap.
- **Aliases** (`ParseAliasIff`, `AcceptedIffLaidOut`, `RecordExpands`, `NestingBound`, `NestingBoundAttained`,
  `ExpandIff`): the accepted records are exactly the encodings followed by a tolerated tail; at most 425 aliases
  nest, and 425 do; the expansion of nested aliases always ends, and goes through if and only if every chain of
  nested entries leads to an alias.

Runs that the program does not survive are outcomes of their own: `OutOfBounds` (a block number or a count
outside a fixed buffer) and `TooDeep` (unbounded recursion). The methods for opening and enumerating require
that neither happens, in terms of the file: `Overflows` for the allocator's buffers, `Escapes` and `Reenters`
for the walk. `DecodeAllocatorOverrunIff` and `SurvivesIff` show that this excludes nothing else, and
`OverflowingFileOverruns`, `SelfChildDiverges` and `RangeCheckMissesChildren` that there are such files. The
ghost argument `depth` of the recursive procedure only bounds its nesting and is never computed with.

## Assumptions

- A file is a byte sequence that does not change while it is read. Seeking always succeeds; reading past
  the end comes back short; writing always succeeds and fills gaps with zeros. Sizes are 64 bits wide.
- The host is little-endian. A stored `bool` is kept as its byte, a `UTCDateTime` as 64 opaque bits.
- Assertions are enabled: `alias_create_from_data` is only called with at least 150 bytes, and a nested entry
  that is shorter ends the expansion.
- A new store's buffers hold anything. Where that matters (the name of a directory entry shorter than four
  bytes is compared with the bytes left behind it) the model says so: `stale` is what memory held before.

Where the code and its own words differ, the code was followed. The message at libamalgamate/dsstore.cpp:620
calls a wrong page size a warning, but the reader fails. The comment at libamalgamate/dsstore.cpp:472 says that
the address list is always padded, but for a block count of 0 the expected number of addresses is 0. A tree
whose neighbours are in order need not come out sorted: empty leaves are accepted. `EmptyLeafFileDisorder` gives
a file that shows it, `SortedIff` the exact condition, and `SeparatedSorted` the case without empty leaves.

## Model

| member | source | states |
|---|---|---|
| Bytes.U16Inverse | libamalgamate/dsio.h:45-50 | decoding two bytes gives n exactly when they are the big-endian bytes of n |
| Bytes.U32Inverse | libamalgamate/dsio.h:52-57 | the same for four bytes |
| Bytes.U64Inverse | libamalgamate/dsio.h:66-71 | the same for eight bytes |
| Files.File.Read | libamalgamate/dsio.h:120-125 | a read gets what the file still has, up to n bytes, and moves the cursor over exactly that |
| Files.File.FreadUint8 | libamalgamate/dsio.h:120-125 | count 1 exactly when a byte is left, and then that byte |
| Files.File.FreadUint16 | libamalgamate/dsio.h:127-134 | count 1 exactly when two bytes are left, and then their number |
| Files.File.FreadUint32 | libamalgamate/dsio.h:136-143 | count 1 exactly when four bytes are left, and then their number |
| Files.File.FreadUint64 | libamalgamate/dsio.h:145-152 | count 1 exactly when eight bytes are left, and then their number |
| Files.File.FwriteUint32 | libamalgamate/dsio.h:169-175 | the four bytes at the cursor become the number, the cursor moves behind them |
| Files.Overwrite | libamalgamate/dsio.h:169-175 | a write behind the end leaves zeros in between; the file ends where the write does, or where it did |
| Files.OverwriteTwice | libamalgamate/dsio.h:169-175 | two writes one after the other are one write of the concatenation, also behind the end of the file |
| Records.DecodeDataIff | libamalgamate/dsrecord.cpp:791-865 | for each of the eight data types the payload is decoded exactly where it is stored, with exactly its length |
| Records.DecodeKeyIff | libamalgamate/dsrecord.cpp:730-772 | file name, record type and data type are decoded exactly where they are stored; empty names are refused |
| Records.DecodeRecordIff | libamalgamate/dsrecord.cpp:725-868 | a record is decoded exactly where it is stored, and decoding consumes exactly its length |
| Records.DecodeInvertsEncode | libamalgamate/dsrecord.cpp:725-868 | decoding an encoding followed by anything gives the record and leaves what follows |
| Records.EncodingsPrefixFree | libamalgamate/dsrecord.cpp:725-868 | no record's encoding is a proper prefix of another's |
| Records.ReencodeIff | libamalgamate/dsrecord.cpp:806-822 | writing a decoded record back reproduces its bytes unless it is a short with nonzero leading bytes, which are dropped |
| Spellings.BigEndian32 | libamalgamate/dsio.h:52-57 | four given bytes are the number with the first byte on top, for writer and reader |
| Spellings.BigEndian64 | libamalgamate/dsio.h:66-71 | eight bytes are the upper word, then the lower |
| Spellings.UnitsInOrder | libamalgamate/dsrecord.cpp:743-752 | the i-th unit stands in the i-th pair of bytes |
| Spellings.DataTypesSpelled | libamalgamate/dsrecord.h:95-104 | which four letters announce which of the eight payloads, and what bytes the payload has, for any name, type and continuation |
| Spellings.RefusedSpelled | libamalgamate/dsrecord.cpp:736-860 | an empty name, any other four letters, and an empty blob or string are refused whatever follows |
| Records.SwapUnits | libamalgamate/dsrecord.cpp:751-752 | every unit is swapped to host order once, in place |
| Records.FreadHostUnits | libamalgamate/dsrecord.cpp:743-749 | all units were read exactly when the file has them; swapping each gives the stored units |
| Records.Record.FreadFilename | libamalgamate/dsrecord.cpp:730-754 | the name read is the stored one, with the cursor right behind it; it is never empty |
| Records.Record.FreadKey | libamalgamate/dsrecord.cpp:730-772 | name, record type and data type are the stored ones, status 0 exactly when all are there |
| Records.Record.FreadData | libamalgamate/dsrecord.cpp:791-867 | the payload that the data type selects is the stored one; unknown data types fail |
| Records.Record.FreadCounted | libamalgamate/dsrecord.cpp:826-854 | blobs and strings: status and contents agree with the decoder, a count of zero fails |
| Records.Record.Fread | libamalgamate/dsrecord.cpp:725-868 | status 0 exactly when a record can be decoded at the cursor; then the object holds it and the cursor stands behind it |
| Addresses.PowU32IsPow | libamalgamate/dsstore.cpp:329-335 | squaring in wrapping arithmetic computes the power modulo 2^32 for all bases and exponents |
| Addresses.MasksUnpack | libamalgamate/dsstore.cpp:337-345 | clearing the low five bits with the program's mask gives the offset, the greatest multiple of 32 not above the address; the bits that the other mask keeps give the size |
| Addresses.BlockSizeExact | libamalgamate/dsstore.cpp:342-345 | a block's size is the exact power of two, at most 2^31, never wrapped |
| Addresses.UnpackInjective | libamalgamate/dsstore.cpp:337-345 | offset and size together determine the packed address |
| Trees.TreeUnique | libamalgamate/dsstore.cpp:155-231 | a file holds at most one tree at a block |
| Trees.InOrderCount | libamalgamate/dsstore.cpp:185-225 | an enumeration has as many records as the record counts of all visited nodes add up to |
| Walks.WalkBlockComplete | libamalgamate/dsstore.cpp:144-242 | where a tree is stored the walk succeeds with nesting no deeper than the tree's height and reports it in order |
| Walks.WalkBlockSound | libamalgamate/dsstore.cpp:144-242 | where the walk succeeds a tree is stored, and it was reported in order |
| Walks.WalkDoneIff | libamalgamate/dsstore.cpp:144-242 | status 0 with this trace exactly when the root number is in range and a tree with this in-order sequence is stored |
| Divergence.WalkBlockDeeper | libamalgamate/dsstore.cpp:208-211 | a walk that ends has the same result however much deeper it might nest |
| Divergence.DepthBound | libamalgamate/dsstore.cpp:144-242 | a walk either ends within as many nested calls as the table has entries, or never |
| Divergence.DivergesIffReenters | libamalgamate/dsstore.cpp:208-230 | the walk recurses for ever exactly when it re-enters a block that is still on its call stack |
| Divergence.SelfChildDiverges | libamalgamate/dsstore.cpp:208-230 | a concrete file: an inner node that is its own rightmost child, which the walk re-enters for ever |
| Divergence.AcyclicEnds | libamalgamate/dsstore.cpp:208-230 | with any rank that falls along calls the walk ends, nested no deeper than the rank |
| Divergence.LeavesIffEscapes | libamalgamate/dsstore.cpp:149-156 | the walk leaves the address table exactly when its calls get to a block number outside it, which the check of the root's number does not prevent |
| Divergence.RangeCheckMissesChildren | libamalgamate/dsstore.cpp:149-156 | a concrete file: the root's number is in range, and the walk of its child leaves the table |
| Divergence.WalkSettled | libamalgamate/dsstore.cpp:144-242 | how a walk ends, told from the file: done iff a tree is stored, endless iff a block is re-entered, out of bounds iff a number outside the table is reached, failed iff none of these |
| Divergence.SurvivesIff | libamalgamate/dsstore.cpp:144-242 | the walk returns a status exactly when no chain of calls leaves the table or comes back to itself |
| Divergence.StoredTreeEnds | libamalgamate/dsstore.cpp:144-242 | no stored tree is higher than the address table is long |
| Truncation.BlockTruncated | libamalgamate/dsstore.cpp:161-238 | walking a prefix of a file does the same as walking the file, or fails after reporting a prefix of its records |
| StoreTruncation.AllocatorCutOff | libamalgamate/dsstore.cpp:450-523 | a truncated file gives the same allocator, or the same overrun, or is refused as too short |
| StoreTruncation.EnumerateTruncated | libamalgamate/dsstore.cpp:54-109 | wherever a file is cut off, opening and enumerating it does the same as with the whole file, or fails after a prefix of its records |
| Order.SortedIff | libamalgamate/dsstore.cpp:199-231 | for a transitive relation the enumeration is sorted exactly when leaves, separators and neighbours are ordered |
| Order.SeparatedSorted | libamalgamate/dsstore.cpp:199-231 | without empty leaves, ordered neighbours are enough for a sorted enumeration |
| Order.EmptyLeafHidesDisorder | libamalgamate/dsstore.cpp:185-231 | ordered neighbours alone do not make the enumeration sorted: the tree with empty leaves that Disorder puts into a file |
| Disorder.EmptyLeafTreeAt | libamalgamate/dsstore.cpp:155-231 | this file holds that tree, for any two records that can be stored |
| Disorder.EmptyLeafFileDisorder | libamalgamate/dsstore.cpp:185-231 | the walk accepts this file and reports the two records out of order, though neighbours are ordered |
| Enumeration.EnumRecord | libamalgamate/dsstore.cpp:213-224 | the observer sees the record at the cursor, and nothing when it cannot be read |
| Enumeration.EnumLeaf | libamalgamate/dsstore.cpp:183-198 | the loop over a leaf reports what the walk of its records does |
| Enumeration.EnumEntry | libamalgamate/dsstore.cpp:201-225 | the record after a child is read right behind the child's block number, whatever the child's subtree did to the cursor |
| Enumeration.EnumEntries | libamalgamate/dsstore.cpp:201-225 | after all entries what is left of the walk is the rightmost child; an entry that fails ends it |
| Enumeration.EnumInner | libamalgamate/dsstore.cpp:199-231 | children and records interleaved, then the rightmost child |
| Enumeration.EnumBlocks | libamalgamate/dsstore.cpp:144-242 | status and reported records are the walk's, independent of the cursor; success restores the cursor |
| Allocators.PaddedCountLeast | libamalgamate/dsstore.cpp:472-474 | the number of addresses read is the least multiple of 256 not below the block count, 0 included |
| Allocators.AddressesOverrunIff | libamalgamate/dsstore.cpp:476-483 | the address loop leaves its table exactly for more than 1024 blocks in a file long enough |
| Allocators.DecodeWordsOverrunIff | libamalgamate/dsstore.cpp:514-519 | a counted list overruns its buffer exactly when it announces too many words and the file has enough to fill it |
| Allocators.DecodeNamesOverrunIff | libamalgamate/dsstore.cpp:490-505 | the directory overruns its buffer exactly when it announces more entries than fit, the file holds as many as fit, and it goes on behind them; one that ends there is refused |
| Allocators.DecodeNamesSound | libamalgamate/dsstore.cpp:490-505 | decoded directory entries are stored where they were decoded |
| Allocators.DecodeListsSound | libamalgamate/dsstore.cpp:507-520 | decoded free lists are stored where they were decoded |
| Allocators.DecodeAllocatorIff | libamalgamate/dsstore.cpp:450-523 | the reader accepts exactly the encodings of images that fit and consumes exactly their bytes |
| AllocatorOverruns.DecodeAllocatorOverrunIff | libamalgamate/dsstore.cpp:472-520 | the reader leaves a buffer exactly when the file announces more addresses, entries or offsets than fit, is well-formed before that, and goes on long enough |
| AllocatorOverruns.OverflowingFileOverruns | libamalgamate/dsstore.cpp:472-483 | a concrete file for every block count above 1024: one that goes on long enough behind it makes the reader leave the table |
| AllocatorStates.ImageOfLoad | libamalgamate/dsstore.cpp:450-587 | what the writer takes from memory is what was loaded, whatever was in the buffers before |
| AllocatorStates.WriteReadIff | libamalgamate/dsstore.cpp:525-587 | what is written is read back to the last byte exactly when the block count is between 1 and 256 |
| AllocatorStates.ReadWriteIff | libamalgamate/dsstore.cpp:450-587 | writing a state just read reproduces its bytes exactly for the same block counts |
| AllocatorIO.Allocator.FreadAddresses | libamalgamate/dsstore.cpp:476-483 | the table begins with the addresses read and keeps its old contents behind them |
| AllocatorIO.Allocator.FreadEntry | libamalgamate/dsstore.cpp:491-504 | one entry of the directory is filled, the others stay, and so does the rest of its name buffer |
| AllocatorIO.Allocator.FreadDirectory | libamalgamate/dsstore.cpp:485-505 | the same for the directory, also inside each name buffer |
| AllocatorIO.Allocator.FreadOffsets | libamalgamate/dsstore.cpp:514-519 | one free list is filled, the others stay |
| AllocatorIO.Allocator.FreadFreeLists | libamalgamate/dsstore.cpp:507-520 | the same for the 32 free lists |
| AllocatorIO.Allocator.Fread | libamalgamate/dsstore.cpp:450-523 | status 0 exactly on encodings of images; then memory is the old memory with the image loaded |
| AllocatorIO.Allocator.FwriteAddresses | libamalgamate/dsstore.cpp:542-547 | the first 256 addresses are written, whatever the block count |
| AllocatorIO.Allocator.FwriteDirectory | libamalgamate/dsstore.cpp:549-569 | the count and the entries in use are written |
| AllocatorIO.Allocator.FwriteFreeLists | libamalgamate/dsstore.cpp:571-584 | all 32 free lists are written with the offsets in use |
| AllocatorIO.Allocator.Fwrite | libamalgamate/dsstore.cpp:525-587 | the file is overwritten at the cursor with exactly the encoding of the image in memory |
| Headers.DecodeHeaderIff | libamalgamate/dsstore.cpp:347-407 | the reader accepts exactly the encodings of headers with the right version, magic and matching offsets |
| Spellings.HeaderSpelled | libamalgamate/dsstore.cpp:347-407 | the 36 bytes that are accepted, by their values: 1, "Bud1", and twice the same offset |
| Spellings.HeaderBlockSpelled | libamalgamate/dsstore.cpp:589-627 | the 20 bytes that are accepted, by their values, and which of them is the root's number |
| Headers.Header.constructor | libamalgamate/dsstore.cpp:44-52 | a new header is one that the reader accepts |
| Headers.Header.Fread | libamalgamate/dsstore.cpp:347-407 | status, fields and cursor agree with the decoder |
| Headers.Header.Fwrite | libamalgamate/dsstore.cpp:409-448 | the 36 bytes at the cursor become the header's encoding |
| Headers.DecodeHeaderBlockIff | libamalgamate/dsstore.cpp:589-627 | the header block is accepted exactly where one with page size 0x1000 is stored |
| Headers.HeaderBlock.Fread | libamalgamate/dsstore.cpp:589-627 | status and fields agree with the decoder |
| Stores.EnumerateIff | libamalgamate/dsstore.cpp:54-109 | opening and enumerating succeeds with this trace exactly on images of stores whose tree has this in-order sequence |
| Stores.EnumerateStoresIff | libamalgamate/dsstore.cpp:54-109 | the same for trees of any height: none that is stored is higher than the table is long |
| Stores.EnumerableIff | libamalgamate/dsstore.cpp:54-109 | opening and enumerating returns a status exactly when no buffer is left and no block re-entered |
| Stores.FindNamed | libamalgamate/dsstore.cpp:74-82 | the first entry named DSDB is found, whatever lies behind the names in memory |
| Stores.FindFromFirst | libamalgamate/dsstore.cpp:74-87 | the search of the directory in memory ends at its first entry with the bytes 44 53 44 42, or with the reserved number if there is none |
| Stores.NoDsdbRejected | libamalgamate/dsstore.cpp:74-87 | a file whose directory has no such entry, or none at all, is not opened, whatever memory held |
| Stores.EndToEnd | libamalgamate/dsstore.cpp:54-109 | a tree laid out in a store is enumerated in order, whatever memory held before |
| Layouts.PlacedAt | libamalgamate/dsstore.cpp:144-231 | the blocks laid out for a tree, found through the addresses laid out for it, are that tree to the walk |
| Layouts.PlacedSame | libamalgamate/dsstore.cpp:183-231 | laying out changes block numbers only: records, their order and the height stay |
| Layouts.SerializeStores | libamalgamate/dsstore.cpp:54-109 | every tree whose records, block numbers and offsets fit is held by a store's file that opening accepts, for any sizes in the low bits of the blocks' addresses |
| Layouts.SerializeEnumerates | libamalgamate/dsstore.cpp:54-242 | laying a tree out in a file, opening the file and enumerating it gives the tree's records in order, whatever memory held before and whatever sizes the addresses carry |
| SpelledStores.StoreSpelled | libamalgamate/dsstore.cpp:54-242 | a file given byte by byte, with blocks anywhere and of any size: opening and enumerating it reports the left leaf's record, the root's, the right leaf's |
| SpelledStores.SpelledIff | libamalgamate/dsstore.cpp:54-242 | these bytes are what the encoders put down for the same store |
| SpelledStores.SerializedSpells | libamalgamate/dsstore.cpp:54-242 | there are such files, for any three short records and any block sizes |
| StoreIO.EnumerableLoadable | libamalgamate/dsstore.cpp:54-72 | a file whose enumeration is survived does not overrun the allocator when it is opened |
| StoreIO.Store.FindHeaderBlock | libamalgamate/dsstore.cpp:74-82 | the loop returns the block number of the first entry with the bytes 44 53 44 42, or FFFFFFFF for none |
| StoreIO.Store.Load | libamalgamate/dsstore.cpp:59-106 | loading succeeds exactly when the model of opening does, with the same header, allocator and header block |
| StoreIO.OpenFile | libamalgamate/dsstore.cpp:54-109 | a store is returned exactly when the file can be opened, and it is a new one |
| StoreIO.Store.EnumRecords | libamalgamate/dsstore.cpp:244-252 | whenever the walk from the root returns, status and trace are the walk's; they depend on file bytes and loaded state only, so a second run repeats the first |
| StoreIO.AllRecords | libamalgamate/amgconvert.cpp:54-66 | a file just opened, into memory that held anything, yields the records of its tree, or fails with those read so far |
| StoreIO.Store.Fwrite | libamalgamate/dsstore.cpp:111-127 | header and allocator are written where they belong, and the status is 1 even so |
| StoreIO.NewStoreFile | libamalgamate/dsstore.cpp:111-142 | a store written to an empty file is header, zeros up to the allocator's offset, allocator, and nothing else |
| StoreIO.WrittenStoreIff | libamalgamate/dsstore.cpp:111-142 | header and allocator are recovered from a written file exactly when the header is acceptable, the overlap agrees and the block count is between 1 and 256 |
| Aliases.ParseHeaderIff | libamalgamate/alias.cpp:97-139 | the header's fields are those whose encoding the first 150 bytes are |
| Aliases.ParseEntriesSound | libamalgamate/alias.cpp:141-168 | the parsed entries are encoded one after the other from the start position, and a tolerated tail follows |
| Aliases.ParseAliasIff | libamalgamate/alias.cpp:89-176 | the parser accepts exactly header, entries and tolerated tail, and returns what they encode |
| Aliases.AliasRoundTrip | libamalgamate/alias.cpp:89-176 | a serialized alias is parsed back, with or without a sentinel |
| AliasLayouts.SignedNumber | libamalgamate/dsio.h:80-85 | two given bytes are the number with the first byte on top, negative from 80 on |
| AliasLayouts.HeaderPlaces | libamalgamate/alias.cpp:97-139 | at which of the 150 bytes each field of the header is found |
| AliasLayouts.EntryExtent | libamalgamate/alias.cpp:142-167 | an entry reaches over the least even number of bytes that holds its value, none for a length of 65535; what follows is parsed from there; one that reaches behind the record is refused |
| AliasLayouts.RecordParses | libamalgamate/alias.cpp:89-176 | values laid out with one byte of padding behind those of odd length are parsed back, each with its tag and length |
| AliasLayouts.AcceptedIffLaidOut | libamalgamate/alias.cpp:89-176 | the parser accepts exactly the records that can be laid out in this way, with at most three bytes or an entry tagged FF FF behind |
| AliasIO.ReadInt16FromBe | libamalgamate/dsio.h:80-85 | the signed number at the pointer, and the pointer advanced by two |
| AliasIO.ReadUint16FromBe | libamalgamate/dsio.h:87-92 | the number at the pointer, and the pointer advanced by two |
| AliasIO.ReadUint32FromBe | libamalgamate/dsio.h:94-99 | the number at the pointer, and the pointer advanced by four |
| AliasIO.ReadDataFrom | libamalgamate/dsio.h:115-118 | the chunk returned is the only one of its size that stands at the pointer, so a field laid there is recovered; the next read starts behind it |
| AliasIO.Alias.constructor | libamalgamate/alias.cpp:78-82 | a new alias is the one parsed from 150 bytes that are zero except for size and version |
| AliasIO.Alias.ReadIdentity | libamalgamate/alias.cpp:97-111 | records of another size or version are refused, and no others |
| AliasIO.Alias.ReadFields | libamalgamate/alias.cpp:113-139 | the pointer passes over the whole header, and every field is the one stored |
| AliasIO.EntryPlaces | libamalgamate/alias.cpp:141-168 | every parsed entry starts at an even offset and stands there with its padded value, inside the record |
| AliasIO.Alias.ReadEntries | libamalgamate/alias.cpp:141-168 | the loop ends and agrees with the parser; each entry it returns was found at an even offset, whole and inside the record |
| AliasIO.ReadEntry | libamalgamate/alias.cpp:142-156 | an entry is read exactly when its padded value stays inside the record, and the pointer moves by an even number of bytes |
| AliasIO.CreateFromData | libamalgamate/alias.cpp:89-176 | an alias is returned exactly when the record can be parsed, with its header and entries |
| NestedAliases.WrappedNeverParses | libamalgamate/alias.cpp:147-156 | an entry of length 65535 is padded to nothing, and its zeroed buffer never parses as an alias |
| NestedAliases.NestedShrinks | libamalgamate/alias.cpp:249-252 | a nested record that parses is at least 154 bytes smaller than the record around it |
| NestedAliases.NestingBound | libamalgamate/alias.cpp:249-252 | at most 425 aliases that parse are nested in each other |
| NestedAliases.NestingBoundAttained | libamalgamate/alias.cpp:249-252 | 425 aliases that parse can be nested in each other: each is the only entry of the one before, the last has none |
| AliasLayouts.RecordExpands | libamalgamate/alias.cpp:221-252 | a laid-out record expands exactly when every value tagged 20 does, item by item, from the value without its padding |
| NestedAliases.ExpandIff | libamalgamate/alias.cpp:221-252 | the expansion goes through exactly when no chain of nested entries leads to bytes that are not an alias |
| NestedAliases.EmptyNestedEntry | libamalgamate/alias.cpp:249-252 | a concrete alias that is accepted and whose expansion does not go through: its nested entry is empty |
| NestedAliases.CopyDictionary | libamalgamate/alias.cpp:221-252 | if no chain of nested entries leads to bytes that are not an alias, the recursive loop over an alias object builds exactly the expansion of the record it was parsed from |

## Left out

- EnumBlocks: does not say where a failed run leaves the cursor, because no later run depends on it; the same
  holds for the other readers, and for what a failed read leaves in a record, header or allocator.
- Record types and the data types expected for them: they only decide about warnings, which have no effect.
- Property lists, dictionaries, dates and colours made with CoreFoundation: foreign calls. Of
  `_alias_copy_dictionary` only the recursion into nested aliases is kept; values of other tags stay bytes.
- Bookmarks (`_ds_get_data_as_pBBk`): a single table of contents adds only field-by-field reads, and following
  a chain is not what the code does.
- Consistency of node count, record count and levels in the header block, alignment of blocks and disjointness
  of free lists: nothing in the program checks or maintains them.
- Record getters and setters, printing, the command line and the application.
- What blocks of which size the buddy allocator would choose: `Serialize` lays blocks out one after the other,
  for any sizes in their addresses, and leaves the other numbers that no reader looks at 0.
- Memory: allocation never fails, and objects that an error path leaks or frees are not modelled.
