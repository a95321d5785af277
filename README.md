# SSTable generation files of the artyomdrozdov DAO storage

This project models the generation-file (SSTable) layer of the key-value
storage in `Storage.java`, and proves properties of that model in Dafny.

A generation file is one immutable, memory-mapped file. It has three parts:

- a 24-byte header: the format version (0), the entry count, and a flag that
  is 1 when some entry is a tombstone;
- an index of one 8-byte position per entry;
- a data region of records `[key length][key][value length or -1][value]`.

The storage keeps the generations of a directory in a list. The oldest comes
first and the last is the newest.

The model covers these parts of the storage:

- **Writer.** `save` makes two passes over the entries. The first sizes the
  file. The second writes each entry's index slot and records, and the header
  comes last. `writeRecord` writes one record.
- **Decoder.** `entryAt` reads one entry back.
- **Binary search.** `entryIndex` and `greaterOrEqualEntryIndex` search the
  index.
- **Point reads.** `get` searches the generations, newest first.
- **Range cursors.** `iterate` builds one cursor per generation.
- **Close state.** `close`, `isClosed`, `checkForClose` and `isCompacted`.

Modules:

- `Types` (types.dfy): byte strings (`byte` is 0..255), `Option`, `Result`,
  and the exceptions the storage raises, as an `Error` datatype.
- `Int64` (int64.dfy): the 8-byte two's-complement codec that
  `getLongAtOffset` and `setLongAtOffset` implement.
- `Lexicographic` (lexicographic.dfy): the unsigned byte order that keys are
  sorted and searched by.
- `SSTableFormat` (format.dfy):
  - the file image the writer produces for a sequence of entries (`FileImage`);
  - the reader's accessors (`GetLong`, `KeyAt`, `DecodeEntry`);
  - what a valid generation is (`Valid`, `Entries`);
  - the round trip between writing and reading.
- `SSTableWriter` (writer.dfy): `save` and `writeRecord` as imperative code
  over an `array<byte>` of the final size. That array is the mapped temporary
  file. `Save` returns the array's contents, which stands for the atomic
  move that publishes the file.
- `SSTableIndex` (index.dfy): the binary search, with its answer as a tagged
  `Found(i) | NotFound(p)` instead of the source's `i` or `~p` long.
  `CountLess` is the lower-bound specification.
- `SSTableStorage` (storage.dfy):
  - the `Storage` class: its constant generation list, the tombstone flag read
    from generation 0, and a mutable `alive` flag for the resource scope;
  - the `Cursor` class, with its mutable `pos`;
  - `Newest`, the newest-generation-wins specification of a point read.

Errors are values. A read outside the mapped file gives `OutOfBounds`. A
version other than 0 gives `UnknownVersion(v)`, and a null key gives `NullKey`.
A read after close still checks its bounds first. An out-of-range read gives
`OutOfBounds`. Any other read gives `AlreadyClosed`, and where the source
catches it, `CheckForClose` turns it into `StorageClosed`.

In the table below, `S` stands for
`src/main/java/ok/dht/test/mikhaylov/dao/artyomdrozdov/Storage.java`.

## Model

| member | source | states |
|---|---|---|
| Int64.DecodeEncodeLong | src/main/java/ok/dht/test/mikhaylov/dao/artyomdrozdov/Storage.java:108-109 | A long stored with setLongAtOffset is read back unchanged by getLongAtOffset |
| Int64.EncodeDecodeLong | src/main/java/ok/dht/test/mikhaylov/dao/artyomdrozdov/Storage.java:166 | Any 8 bytes read as a long encode back to the same 8 bytes, so the codec is a bijection |
| Lexicographic.Compare | src/main/java/ok/dht/test/mikhaylov/dao/artyomdrozdov/Storage.java:186 | The comparator is negative, zero or positive exactly when the first key sorts before, equals or sorts after the second |
| Lexicographic.LessTransitive | src/main/java/ok/dht/test/mikhaylov/dao/artyomdrozdov/Storage.java:178-194 | The key order is transitive, which the search relies on to discard half the range |
| Lexicographic.Trichotomy | src/main/java/ok/dht/test/mikhaylov/dao/artyomdrozdov/Storage.java:186-193 | Exactly one of below, equal or above holds between two keys |
| SSTableFormat.SizeOnDisk | src/main/java/ok/dht/test/mikhaylov/dao/artyomdrozdov/Storage.java:128-130 | getSizeOnDisk is the length of the entry's key and value records plus one 8-byte index slot |
| SSTableFormat.FileSizeIsSizeOnDisk | src/main/java/ok/dht/test/mikhaylov/dao/artyomdrozdov/Storage.java:96-104 | A written file's size is the 24-byte header plus the sum of getSizeOnDisk over its entries |
| SSTableFormat.PositionsIncrease | src/main/java/ok/dht/test/mikhaylov/dao/artyomdrozdov/Storage.java:106-116 | Entry 0 starts at the data start; each entry starts after the end of every earlier entry; every entry ends inside the data region |
| SSTableFormat.Slice | src/main/java/ok/dht/test/mikhaylov/dao/artyomdrozdov/Storage.java:207 | asSlice succeeds exactly when the slice lies inside the file, and then has the requested length |
| SSTableFormat.GetLong | src/main/java/ok/dht/test/mikhaylov/dao/artyomdrozdov/Storage.java:201-204 | getLongAtOffset succeeds exactly when 8 bytes at the offset lie inside the file, and then yields a long |
| SSTableFormat.DecodeEntry | src/main/java/ok/dht/test/mikhaylov/dao/artyomdrozdov/Storage.java:199-213 | entryAt's only failure is an out-of-bounds read; a decoded entry's key is the key the search compares at that index |
| SSTableFormat.HeaderFields | src/main/java/ok/dht/test/mikhaylov/dao/artyomdrozdov/Storage.java:85-120 | In a written file, offset 0 holds version 0 and offset 8 holds the entry count; offset 16 holds 1 if some entry is a tombstone and 0 otherwise |
| SSTableFormat.HeaderOfLaidOut | src/main/java/ok/dht/test/mikhaylov/dao/artyomdrozdov/Storage.java:118-120 | The same three header fields for any buffer laid out as the writer lays it out |
| SSTableFormat.PositionInIndex | src/main/java/ok/dht/test/mikhaylov/dao/artyomdrozdov/Storage.java:106-109 | Index slot i, at 24 + 8i, holds entry i's position: the data start plus the sizes of the entries before it |
| SSTableFormat.DecodeEntryRoundTrip | src/main/java/ok/dht/test/mikhaylov/dao/artyomdrozdov/Storage.java:199-209 | Round trip: entryAt on a written file returns the i-th input entry's key and value, with a null value exactly where the input's value was null |
| SSTableFormat.EntriesOfLaidOut | src/main/java/ok/dht/test/mikhaylov/dao/artyomdrozdov/Storage.java:199-213 | A laid-out buffer is readable, and the entries it decodes to are exactly the entries written, in order |
| SSTableFormat.SavedFileEntries | src/main/java/ok/dht/test/mikhaylov/dao/artyomdrozdov/Storage.java:73-126 | A saved file decodes to exactly its entries; if they were sorted, it is a valid generation |
| SSTableWriter.SetLong | src/main/java/ok/dht/test/mikhaylov/dao/artyomdrozdov/Storage.java:108-109 | setLongAtOffset places the long's 8 bytes at the offset and changes no other byte |
| SSTableWriter.WriteRecord | src/main/java/ok/dht/test/mikhaylov/dao/artyomdrozdov/Storage.java:132-141 | writeRecord writes -1 for a null record, else the length then the bytes; it returns the byte count written and changes nothing outside the record |
| SSTableWriter.Measure | src/main/java/ok/dht/test/mikhaylov/dao/artyomdrozdov/Storage.java:85-94 | The first pass yields the data-region size, the entry count, and whether some entry is a tombstone |
| SSTableWriter.WriteEntries | src/main/java/ok/dht/test/mikhaylov/dao/artyomdrozdov/Storage.java:106-116 | After the second pass, the index region holds every entry's position and the data region holds every entry's records. The 24 header bytes are untouched, so the header is written last |
| SSTableWriter.WriteEntry | src/main/java/ok/dht/test/mikhaylov/dao/artyomdrozdov/Storage.java:107-115 | One iteration extends the written prefix by entry i's slot and records, and advances the offset by the entry's size. No other byte changes, the header included |
| SSTableWriter.Save | src/main/java/ok/dht/test/mikhaylov/dao/artyomdrozdov/Storage.java:73-126 | save produces exactly FileImage(entries); with SavedFileEntries, the file reads back as the entries written |
| SSTableIndex.CountLessOfSplit | src/main/java/ok/dht/test/mikhaylov/dao/artyomdrozdov/Storage.java:176-196 | If keys are below the searched key up to p and not below it from p on, then p is the number of keys below the searched key |
| SSTableIndex.CountLessSplits | src/main/java/ok/dht/test/mikhaylov/dao/artyomdrozdov/Storage.java:155-161 | In sorted entries, the keys below a key are exactly the first CountLess entries |
| SSTableIndex.FoundAtCountLess | src/main/java/ok/dht/test/mikhaylov/dao/artyomdrozdov/Storage.java:155-161 | In sorted entries, a present key sits at index CountLess, so the found index is the lower bound |
| SSTableIndex.CountLessMonotone | src/main/java/ok/dht/test/mikhaylov/dao/artyomdrozdov/Storage.java:230-232 | The lower bound does not decrease as the key grows |
| SSTableIndex.RangeOfPositions | src/main/java/ok/dht/test/mikhaylov/dao/artyomdrozdov/Storage.java:230-249 | In sorted entries, position i lies in [lb(from), lb(to)) exactly when its key lies in [from, to) |
| SSTableIndex.AnswerUnique | src/main/java/ok/dht/test/mikhaylov/dao/artyomdrozdov/Storage.java:165-197 | In sorted entries the search has only one correct answer |
| SSTableIndex.EntryIndex | src/main/java/ok/dht/test/mikhaylov/dao/artyomdrozdov/Storage.java:165-197 | Errors, in the source's order: an unknown version, a missing count, then a null key. Found(i) has i below the count and key i equal to the key. NotFound(p) has p in [0, count]. On a valid file the answer is Found(index of the key) when present, else NotFound(number of keys below it) |
| SSTableIndex.GreaterOrEqualEntryIndex | src/main/java/ok/dht/test/mikhaylov/dao/artyomdrozdov/Storage.java:155-161 | Has the same errors as entryIndex. On a valid file it returns the index of the first key not below the key, a value in [0, count] |
| SSTableStorage.Find | src/main/java/ok/dht/test/mikhaylov/dao/artyomdrozdov/Storage.java:219-222 | A generation yields an entry with the searched key, and yields none exactly when no entry has that key |
| SSTableStorage.FindAt | src/main/java/ok/dht/test/mikhaylov/dao/artyomdrozdov/Storage.java:178-194 | In sorted entries, the entry the search finds is the one entry holding the key |
| SSTableStorage.Newest | src/main/java/ok/dht/test/mikhaylov/dao/artyomdrozdov/Storage.java:215-228 | The expected answer of a point read; any entry it yields has the searched key |
| SSTableStorage.NewestWins | src/main/java/ok/dht/test/mikhaylov/dao/artyomdrozdov/Storage.java:217-222 | If generation i holds the key and no newer generation does, the read yields generation i's entry, tombstones included |
| SSTableStorage.NewestSource | src/main/java/ok/dht/test/mikhaylov/dao/artyomdrozdov/Storage.java:217-222 | Conversely, a read's entry comes from a generation that holds the key with no newer generation holding it; an older generation never wins |
| SSTableStorage.NewestAbsent | src/main/java/ok/dht/test/mikhaylov/dao/artyomdrozdov/Storage.java:217-224 | A read yields null exactly when no generation holds the key |
| SSTableStorage.NewestStep | src/main/java/ok/dht/test/mikhaylov/dao/artyomdrozdov/Storage.java:217-223 | One step of the downward scan: generation i answers if it holds the key, else the older generations do |
| SSTableStorage.NewGenerationShadows | src/main/java/ok/dht/test/mikhaylov/dao/artyomdrozdov/Storage.java:64-71 | After a sorted save, reads of keys in the new file see the new entries, and reads of other keys are unchanged |
| SSTableStorage.Storage.constructor | src/main/java/ok/dht/test/mikhaylov/dao/artyomdrozdov/Storage.java:149-153 | A new storage holds the given generations and flag and is open |
| SSTableStorage.Storage.Load | src/main/java/ok/dht/test/mikhaylov/dao/artyomdrozdov/Storage.java:48-60 | load keeps the files in generation order. hasTombstones is set when generation 0's flag is 1. Load fails only when generation 0 is shorter than its header |
| SSTableStorage.Storage.SaveNext | src/main/java/ok/dht/test/mikhaylov/dao/artyomdrozdov/Storage.java:64-71 | The file saved next is appended after the existing generations, as the newest, and holds FileImage(entries) |
| SSTableStorage.Storage.CheckForClose | src/main/java/ok/dht/test/mikhaylov/dao/artyomdrozdov/Storage.java:265-267 | An IllegalStateException becomes StorageClosed exactly when the storage is closed; otherwise it passes through |
| SSTableStorage.Storage.EntryAt | src/main/java/ok/dht/test/mikhaylov/dao/artyomdrozdov/Storage.java:199-213 | On a closed storage, an index slot outside the file gives OutOfBounds and any other index gives StorageClosed. An open one decodes the entry; on a valid file, index i yields the file's i-th entry |
| SSTableStorage.Storage.Get | src/main/java/ok/dht/test/mikhaylov/dao/artyomdrozdov/Storage.java:215-228 | No generations gives null. On a closed storage, a newest generation shorter than 8 bytes gives OutOfBounds and otherwise the result is StorageClosed. On an open storage with valid generations, a null key gives NullKey; a newest generation with an unknown version or a short header fails first. On valid generations the result is Newest: the newest generation holding the key wins, and a returned entry always has the key |
| SSTableStorage.Storage.GetInGeneration | src/main/java/ok/dht/test/mikhaylov/dao/artyomdrozdov/Storage.java:217-222 | One pass of get's loop over a generation. On a closed storage, a file shorter than 8 bytes gives OutOfBounds and any other gives StorageClosed. On an open, valid file a null key gives NullKey, and otherwise the result is Find over the file's entries: the entry holding the key, or null when none does |
| SSTableStorage.Storage.IterateGeneration | src/main/java/ok/dht/test/mikhaylov/dao/artyomdrozdov/Storage.java:230-249 | The cursor starts at lb(keyFrom) and stops before lb(keyTo) of its generation. On an open storage the search's errors pass through: an unknown version gives UnknownVersion(v); a null keyFrom on a file with a readable header gives NullKey; a null keyTo on a valid file gives NullKey. On a closed storage the version read fails with OutOfBounds on a file shorter than 8 bytes, else with AlreadyClosed |
| SSTableStorage.Storage.Iterate | src/main/java/ok/dht/test/mikhaylov/dao/artyomdrozdov/Storage.java:253-263 | iterate returns one fresh cursor per generation, in list order, each over [lb(keyFrom), lb(keyTo)). On open, valid generations, a null keyFrom or keyTo gives NullKey and no cursor. On a closed storage, generation 0 shorter than 8 bytes gives OutOfBounds and otherwise the result is StorageClosed |
| SSTableStorage.Storage.CollectCursors | src/main/java/ok/dht/test/mikhaylov/dao/artyomdrozdov/Storage.java:255-259 | The try block of iterate: one fresh cursor per generation in list order, each over [lb(keyFrom), lb(keyTo)) on open, valid generations. A null bound on open, valid generations gives NullKey. On a closed storage, generation 0's version read gives OutOfBounds or AlreadyClosed, not yet mapped by checkForClose |
| SSTableStorage.Storage.Close | src/main/java/ok/dht/test/mikhaylov/dao/artyomdrozdov/Storage.java:269-283 | After close, isClosed (Storage.IsClosed, the scope is not alive) holds. Closing a closed storage changes nothing, so close is idempotent |
| SSTableStorage.CompactedIff | src/main/java/ok/dht/test/mikhaylov/dao/artyomdrozdov/Storage.java:285-293 | isCompacted (Storage.IsCompacted) holds exactly when there are no generations, or one whose stored flag is not 1. For a file saved from entries, that is exactly when it holds no tombstone |
| SSTableStorage.Cursor.constructor | src/main/java/ok/dht/test/mikhaylov/dao/artyomdrozdov/Storage.java:235-240 | A cursor starts at keyFromPos and is bounded by keyToPos |
| SSTableStorage.Cursor.Next | src/main/java/ok/dht/test/mikhaylov/dao/artyomdrozdov/Storage.java:238-247 | next returns entryAt(pos), then advances pos by one; a failed read leaves pos unchanged. While hasNext (Cursor.HasNext, pos below keyToPos) holds on an open valid file, next yields the first entry of Remaining and Remaining loses exactly that entry |
| SSTableStorage.Cursor.Remaining | src/main/java/ok/dht/test/mikhaylov/dao/artyomdrozdov/Storage.java:235-247 | The entries still to be yielded: limit - pos of them, the file's entries from pos on, in order. Next consumes them front to back |
| SSTableStorage.CursorYieldsRange | src/main/java/ok/dht/test/mikhaylov/dao/artyomdrozdov/Storage.java:230-249 | A generation's cursor yields exactly its entries with keys in [keyFrom, keyTo), and yields nothing when keyTo does not sort after keyFrom |

## Left out

- File-system work is not modelled: the temporary file, `deleteIfExists`, `createFile`, `mapFile`, `force` and the atomic move (S:78-84, 98-104, 122-125). The mapped file is an array of its final size, and publishing it means returning its contents.
- `load`'s directory scan and `compact` are not modelled: the generation files are given as a sequence. `finishCompact`, the compacted-file recovery and file naming depend on `FileUtilities`, which is not part of this model.
- `FileUtilities.getSize` is not part of this model. It is taken to be the bytes of the entry's key record plus its value record, which is what the second pass of `save` writes.
- Resource-scope concurrency is not modelled: the shared scope, the `Cleaner`, and a `close` that races another thread. Closing is a boolean flag, and the retry loop of `close` runs at most once.
- The comparator's implementation is not part of this model. Keys are compared in unsigned lexicographic order, with a proper prefix sorting first.
- Java uses the platform's native byte order. The model fixes little-endian for both reading and writing.
- SSTableWriter.Save: requires `Fits(entries)`, i.e. every offset and length fits in a long. The source does not check this: a larger file cannot be mapped, and its offsets would wrap around.
- SSTableStorage.Storage.SaveNext: requires `Fits(entries)` for the same reason, since it calls `Save`.
- SSTableIndex.EntryIndex: positions on a corrupt file (`24 + 8·mid`, and the key position plus 8 plus the key size) are computed without long wrap-around. A corrupt file whose arithmetic overflows in Java may read elsewhere; the model reports `OutOfBounds` or reads the unwrapped position. The same holds for `recordsCount - 1` (S:176): a stored count of Long.MIN_VALUE gives the model an empty search and `NotFound(0)`, while Java's `right` wraps to Long.MAX_VALUE, the search runs at wrapped slot offsets, and it can fail with IndexOutOfBounds. On files the writer produced, no value comes near the long range.
- SSTableStorage.Storage.Load: the IOException of a missing or unmappable file is not modelled.
- Keys and values are returned as copied byte sequences. In the source they are zero-copy slices of the mapped file, so reading one after `close` fails; the model does not capture that.
- Iterators are `Cursor` objects, not `java.util.Iterator`s. `next()` past the end is not checked, as in the source; it decodes whatever index slot lies there.
- The order of generations follows the code, not the comment above the fields. The comment says fresh files come first. `get` and the file numbering make the last generation the newest, and the model follows that.
- An absent `keyFrom` or `keyTo` is not an open bound. As in the code, a null key makes the search fail with `NullKey`.
