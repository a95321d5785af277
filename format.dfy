/** The generation (SSTable) file format:

      header   [version][entry count][has-tombstone flag]     3 longs, 24 bytes
      index    [position of entry 0] ... [position of entry N-1]   N longs
      data     [key length][key][value length or -1][value]   one record per entry

    FileImage gives the bytes the writer produces for a sequence of entries;
    DecodeEntry reads entry i back the way the storage does. */
module SSTableFormat {
  import opened Types
  import opened Int64
  import opened Lexicographic

  const IndexHeaderSize: int := 24   // Long.BYTES * 3
  const IndexRecordSize: int := 8    // Long.BYTES
  const Version: int := 0
  /** The length written in place of a value that is absent (a tombstone). */
  const TombstoneLength: int := -1

  /** A key and its value; a missing value is a tombstone (a deleted key). */
  datatype Entry = Entry(key: Bytes, value: Option<Bytes>) {
    predicate IsTombstone() {
      value.None?
    }
  }

  // ---------------------------------------------------------------- sizes

  /** Bytes writeRecord uses for one record: a length, then the bytes if present. */
  function RecordSize(record: Option<Bytes>): int {
    match record
    case None => LongBytes
    case Some(b) => LongBytes + |b|
  }

  /** Bytes of an entry's key record and value record in the data region. */
  function EntrySize(e: Entry): int {
    RecordSize(Some(e.key)) + RecordSize(e.value)
  }

  /** Storage.getSizeOnDisk: the entry's records plus its index slot. */
  function SizeOnDisk(e: Entry): (n: int)
    ensures n == |EntryBytes(e)| + IndexRecordSize
    ensures n >= 24
  {
    EntrySize(e) + IndexRecordSize
  }

  /** Size of the data region of a file holding es. */
  function DataSize(es: seq<Entry>): (n: int)
    ensures n >= 16 * |es|
  {
    if es == [] then 0 else DataSize(es[..|es| - 1]) + EntrySize(es[|es| - 1])
  }

  /** Where entry i starts, relative to the start of the data region. */
  function DataOffset(es: seq<Entry>, i: int): (n: int)
    requires 0 <= i <= |es|
    ensures n >= 16 * i
  {
    DataSize(es[..i])
  }

  /** Offset of the data region: header plus one index slot per entry.
      (Products are written with the literal 8 = IndexRecordSize so that the
      arithmetic stays linear for the prover.) */
  function DataStart(count: int): int {
    IndexHeaderSize + 8 * count
  }

  /** Every offset and length the writer stores fits in a Java long. */
  predicate Fits(es: seq<Entry>) {
    DataStart(|es|) + DataSize(es) <= MaxLong
  }

  predicate HasTombstone(es: seq<Entry>) {
    exists i :: 0 <= i < |es| && es[i].IsTombstone()
  }

  // ----------------------------------------------------------- the writer's bytes

  /** writeRecord's bytes: the length (or -1 for null), then the bytes. */
  function RecordBytes(record: Option<Bytes>): (b: Bytes)
    ensures |b| == RecordSize(record)
  {
    match record
    case None => EncodeLong(TombstoneLength)
    case Some(r) => EncodeLong(|r|) + r
  }

  /** An entry's bytes in the data region: key record, then value record. */
  function EntryBytes(e: Entry): (b: Bytes)
    ensures |b| == EntrySize(e)
  {
    RecordBytes(Some(e.key)) + RecordBytes(e.value)
  }

  /** The data region: the entries' bytes back to back, in input order. */
  function DataImage(es: seq<Entry>): (b: Bytes)
    ensures |b| == DataSize(es)
  {
    if es == [] then [] else DataImage(es[..|es| - 1]) + EntryBytes(es[|es| - 1])
  }

  /** The index region: slot i holds base plus the data bytes before entry i. */
  function IndexImage(es: seq<Entry>, base: int): (b: Bytes)
    ensures |b| == 8 * |es|
  {
    if es == [] then []
    else IndexImage(es[..|es| - 1], base) + EncodeLong(base + DataSize(es[..|es| - 1]))
  }

  function Header(es: seq<Entry>): (b: Bytes)
    ensures |b| == IndexHeaderSize
  {
    EncodeLong(Version) + EncodeLong(|es|) + EncodeLong(if HasTombstone(es) then 1 else 0)
  }

  /** The complete file save writes for es. */
  function FileImage(es: seq<Entry>): (b: Bytes)
    ensures |b| == DataStart(|es|) + DataSize(es)
  {
    Header(es) + IndexImage(es, DataStart(|es|)) + DataImage(es)
  }

  // ------------------------------------------------------------------ reading

  /** asSlice(offset, length), or None where the source throws IndexOutOfBounds. */
  function Slice(g: Bytes, offset: int, length: int): (r: Option<Bytes>)
    ensures r.Some? <==> 0 <= offset && 0 <= length && offset + length <= |g|
    ensures r.Some? ==> |r.value| == length
  {
    if 0 <= offset && 0 <= length && offset + length <= |g| then Some(g[offset..offset + length])
    else None
  }

  /** getLongAtOffset, or None where the source throws IndexOutOfBounds. */
  function GetLong(g: Bytes, offset: int): (r: Option<int>)
    ensures r.Some? <==> 0 <= offset && offset + LongBytes <= |g|
    ensures r.Some? ==> IsLong(r.value)
  {
    match Slice(g, offset, LongBytes)
    case None => None
    case Some(b) => Some(DecodeLong(b))
  }

  function FileVersion(g: Bytes): Option<int> {
    GetLong(g, 0)
  }

  function RecordsCount(g: Bytes): Option<int> {
    GetLong(g, 8)
  }

  function TombstoneFlag(g: Bytes): Option<int> {
    GetLong(g, 16)
  }

  /** Index slot i: the position of entry i's key record. */
  function EntryPosition(g: Bytes, i: int): Option<int> {
    GetLong(g, IndexHeaderSize + 8 * i)
  }

  /** The key of entry i, as the binary search reads it. */
  function KeyAt(g: Bytes, i: int): Option<Bytes> {
    match EntryPosition(g, i)
    case None => None
    case Some(offset) =>
      match GetLong(g, offset)
      case None => None
      case Some(keySize) => Slice(g, offset + LongBytes, keySize)
  }

  /** Entry i as entryAt decodes it: a stored value length of -1 is a tombstone.
      No check that i is below the entry count, as in the source. */
  function DecodeEntry(g: Bytes, i: int): (r: Result<Entry>)
    ensures r.Ok? ==> KeyAt(g, i) == Some(r.value.key)
    ensures r.Err? ==> r.error == OutOfBounds
  {
    match EntryPosition(g, i)
    case None => Err(OutOfBounds)
    case Some(offset) =>
      match GetLong(g, offset)
      case None => Err(OutOfBounds)
      case Some(keySize) =>
        var valueOffset := offset + LongBytes + keySize;
        match GetLong(g, valueOffset)
        case None => Err(OutOfBounds)
        case Some(valueSize) =>
          match Slice(g, offset + LongBytes, keySize)
          case None => Err(OutOfBounds)
          case Some(key) =>
            if valueSize == TombstoneLength then Ok(Entry(key, None))
            else
              match Slice(g, valueOffset + LongBytes, valueSize)
              case None => Err(OutOfBounds)
              case Some(value) => Ok(Entry(key, Some(value)))
  }

  /** Entries strictly ascending by key, hence free of duplicate keys. */
  ghost predicate Sorted(es: seq<Entry>) {
    forall i, j :: 0 <= i < j < |es| ==> Less(es[i].key, es[j].key)
  }

  /** The header holds a non-negative count and every entry below it decodes. */
  ghost predicate Readable(g: Bytes) {
    && RecordsCount(g).Some?
    && RecordsCount(g).value >= 0
    && forall i :: 0 <= i < RecordsCount(g).value ==> DecodeEntry(g, i).Ok?
  }

  /** The entries of a readable file, in index order. */
  ghost function Entries(g: Bytes): (es: seq<Entry>)
    requires Readable(g)
    ensures |es| == RecordsCount(g).value
    ensures forall i :: 0 <= i < |es| ==> DecodeEntry(g, i) == Ok(es[i])
  {
    seq(RecordsCount(g).value, i requires 0 <= i < RecordsCount(g).value => DecodeEntry(g, i).value)
  }

  /** A well-formed generation file: current version, readable, sorted. */
  ghost predicate Valid(g: Bytes) {
    FileVersion(g) == Some(Version) && Readable(g) && Sorted(Entries(g))
  }

  // ------------------------------------------------------------ placement

  /** Byte k of b. A symbol of its own, so that a placement fact about b is
      only used for the bytes a proof asks about. */
  ghost function ByteOf(b: Bytes, k: int): byte
    requires 0 <= k < |b|
  {
    b[k]
  }

  /** b sits in g at offset. Stated byte by byte, so that facts about g's
      bytes follow from facts about b's and not the other way round. */
  ghost predicate BytesAt(g: Bytes, offset: int, b: Bytes) {
    && 0 <= offset && offset + |b| <= |g|
    && forall k {:trigger ByteOf(b, k)} :: 0 <= k < |b| ==> g[offset + k] == ByteOf(b, k)
  }

  lemma {:induction false} BytesAtSlice(g: Bytes, offset: int, b: Bytes)
    requires BytesAt(g, offset, b)
    ensures g[offset..offset + |b|] == b
  {
    forall k | 0 <= k < |b|
      ensures g[offset..offset + |b|][k] == b[k]
    {
      assert g[offset + k] == ByteOf(b, k);
    }
  }

  /** Both halves of p + q sit where they were appended. */
  lemma {:induction false} BytesAtAppend(p: Bytes, q: Bytes)
    ensures BytesAt(p + q, 0, p)
    ensures BytesAt(p + q, |p|, q)
  {
  }

  /** A piece of a part that sits in g sits in g, shifted by the part's offset. */
  lemma {:induction false} BytesAtWithin(g: Bytes, start: int, part: Bytes, at: int, piece: Bytes)
    requires BytesAt(g, start, part) && BytesAt(part, at, piece)
    ensures BytesAt(g, start + at, piece)
  {
    forall k | 0 <= k < |piece|
      ensures g[start + at + k] == ByteOf(piece, k)
    {
      assert g[start + at + k] == ByteOf(part, at + k) == ByteOf(piece, k);
    }
  }

  /** The three parts of r = p + q + s and where they sit. */
  lemma {:induction false} ThreeParts(p: Bytes, q: Bytes, s: Bytes, r: Bytes)
    requires r == p + q + s
    ensures BytesAt(r, 0, p)
    ensures BytesAt(r, |p|, q)
    ensures BytesAt(r, |p| + |q|, s)
  {
    BytesAtAppend(p + q, s);
    BytesAtAppend(p, q);
    BytesAtWithin(r, 0, p + q, 0, p);
    BytesAtWithin(r, 0, p + q, |p|, q);
  }

  // ------------------------------------------------------------ sizes and images

  /** The data before entry k is a prefix of the data before entry n. */
  lemma {:induction false} DataSizeMonotone(es: seq<Entry>, k: int)
    requires 0 <= k <= |es|
    ensures DataSize(es[..k]) <= DataSize(es)
    ensures k < |es| ==> DataSize(es[..k]) + EntrySize(es[k]) <= DataSize(es)
    decreases |es|
  {
    if k < |es| {
      assert es[..|es| - 1][..k] == es[..k];
      DataSizeMonotone(es[..|es| - 1], k);
      assert es[..k + 1][..k] == es[..k];
      if k + 1 < |es| {
        assert es[..|es| - 1][..k + 1] == es[..k + 1];
        DataSizeMonotone(es[..|es| - 1], k + 1);
      } else {
        assert es[..k + 1] == es;
      }
    } else {
      assert es[..k] == es;
    }
  }

  /** Layout: entry 0 starts at the data start, each entry starts after the
      end of the ones before it, and every entry ends within the data region. */
  lemma {:induction false} PositionsIncrease(es: seq<Entry>, i: int, j: int)
    requires 0 <= i < j <= |es|
    ensures DataOffset(es, 0) == 0
    ensures DataOffset(es, i) + EntrySize(es[i]) <= DataOffset(es, j) <= DataSize(es)
  {
    assert es[..0] == [];
    assert es[..j][..i] == es[..i] && es[..j][i] == es[i];
    DataSizeMonotone(es[..j], i);
    DataSizeMonotone(es, j);
  }

  /** Entry i's bytes sit in the data region right after the bytes of entries 0..i-1. */
  lemma {:induction false} DataImageAt(es: seq<Entry>, i: int)
    requires 0 <= i < |es|
    ensures BytesAt(DataImage(es), DataOffset(es, i), EntryBytes(es[i]))
    decreases |es|
  {
    var init := es[..|es| - 1];
    BytesAtAppend(DataImage(init), EntryBytes(es[|es| - 1]));
    if i == |es| - 1 {
      assert es[..i] == init;
    } else {
      assert init[..i] == es[..i] && init[i] == es[i];
      DataImageAt(init, i);
      BytesAtWithin(DataImage(es), 0, DataImage(init), DataOffset(es, i), EntryBytes(es[i]));
    }
  }

  /** Index slot i holds base plus the size of the data of entries 0..i-1. */
  lemma {:induction false} IndexImageAt(es: seq<Entry>, base: int, i: int)
    requires 0 <= i < |es|
    ensures BytesAt(IndexImage(es, base), 8 * i, EncodeLong(base + DataOffset(es, i)))
    decreases |es|
  {
    var init := es[..|es| - 1];
    BytesAtAppend(IndexImage(init, base), EncodeLong(base + DataSize(init)));
    if i == |es| - 1 {
      assert es[..i] == init;
    } else {
      assert init[..i] == es[..i];
      IndexImageAt(init, base, i);
      BytesAtWithin(IndexImage(es, base), 0, IndexImage(init, base), 8 * i, EncodeLong(base + DataOffset(es, i)));
    }
  }

  // ------------------------------------------------------------ reading back

  /** A long written at offset is read back at offset. */
  lemma {:induction false} LongAt(g: Bytes, offset: int, v: int)
    requires BytesAt(g, offset, EncodeLong(v)) && IsLong(v)
    ensures GetLong(g, offset) == Some(v)
  {
    BytesAtSlice(g, offset, EncodeLong(v));
    DecodeEncodeLong(v);
  }

  /** A record written at offset is read back: its length (or -1), then its bytes. */
  lemma {:induction false} RecordAt(g: Bytes, offset: int, record: Option<Bytes>)
    requires BytesAt(g, offset, RecordBytes(record))
    requires record.Some? ==> IsLong(|record.value|)
    ensures GetLong(g, offset) == Some(if record.None? then TombstoneLength else |record.value|)
    ensures record.Some? ==> Slice(g, offset + LongBytes, |record.value|) == record
  {
    match record
    case None =>
      LongAt(g, offset, TombstoneLength);
    case Some(r) =>
      BytesAtAppend(EncodeLong(|r|), r);
      BytesAtWithin(g, offset, RecordBytes(record), 0, EncodeLong(|r|));
      BytesAtWithin(g, offset, RecordBytes(record), LongBytes, r);
      LongAt(g, offset, |r|);
      BytesAtSlice(g, offset + LongBytes, r);
  }

  /** The key record and the value record of an entry written at offset. */
  lemma {:induction false} EntryRecordsAt(g: Bytes, offset: int, valueAt: int, e: Entry)
    requires BytesAt(g, offset, EntryBytes(e))
    requires valueAt == offset + LongBytes + |e.key|
    ensures BytesAt(g, offset, RecordBytes(Some(e.key)))
    ensures BytesAt(g, valueAt, RecordBytes(e.value))
  {
    var keyRecord, valueRecord := RecordBytes(Some(e.key)), RecordBytes(e.value);
    BytesAtAppend(keyRecord, valueRecord);
    BytesAtWithin(g, offset, EntryBytes(e), 0, keyRecord);
    BytesAtWithin(g, offset, EntryBytes(e), |keyRecord|, valueRecord);
  }

  // DecodeEntryAt and DecodeEntryWithValueAt state the same fact, and so do
  // DecodeInLaidOut and DecodeAtOffset below. The second of each pair takes a
  // computed offset as a parameter pinned by a requires, so that the solver
  // sees a variable rather than the sum over the entries before it; this is
  // what keeps these proofs cheap. The first of each pair is the one to call.

  /** Entry i decodes to e when index slot i points at e's bytes. */
  lemma {:induction false} DecodeEntryAt(g: Bytes, i: int, offset: int, e: Entry)
    requires EntryPosition(g, i) == Some(offset)
    requires BytesAt(g, offset, EntryBytes(e))
    requires IsLong(|e.key|) && (e.value.Some? ==> IsLong(|e.value.value|))
    ensures DecodeEntry(g, i) == Ok(e)
  {
    DecodeEntryWithValueAt(g, i, offset, offset + LongBytes + |e.key|, e);
  }

  /** DecodeEntryAt, with the offset of the value record named. */
  lemma {:induction false} DecodeEntryWithValueAt(g: Bytes, i: int, offset: int, valueAt: int, e: Entry)
    requires EntryPosition(g, i) == Some(offset)
    requires BytesAt(g, offset, EntryBytes(e))
    requires valueAt == offset + LongBytes + |e.key|
    requires IsLong(|e.key|) && (e.value.Some? ==> IsLong(|e.value.value|))
    ensures DecodeEntry(g, i) == Ok(e)
  {
    EntryRecordsAt(g, offset, valueAt, e);
    RecordAt(g, offset, Some(e.key));
    RecordAt(g, valueAt, e.value);
    DecodeFromFields(g, i, offset, valueAt, e);
  }

  /** DecodeEntry reassembles an entry from its two length fields and two payloads. */
  lemma {:induction false} DecodeFromFields(g: Bytes, i: int, offset: int, valueAt: int, e: Entry)
    requires EntryPosition(g, i) == Some(offset)
    requires valueAt == offset + LongBytes + |e.key|
    requires GetLong(g, offset) == Some(|e.key|)
    requires Slice(g, offset + LongBytes, |e.key|) == Some(e.key)
    requires GetLong(g, valueAt) == Some(if e.value.None? then TombstoneLength else |e.value.value|)
    requires e.value.Some? ==> Slice(g, valueAt + LongBytes, |e.value.value|) == e.value
    ensures DecodeEntry(g, i) == Ok(e)
  {
  }

  // ------------------------------------------------------------ written files

  /** g is laid out as the writer lays out a file for es: header, index
      region and data region, back to back. */
  ghost predicate LaidOut(g: Bytes, es: seq<Entry>) {
    && |g| == DataStart(|es|) + DataSize(es)
    && BytesAt(g, 0, Header(es))
    && BytesAt(g, IndexHeaderSize, IndexImage(es, DataStart(|es|)))
    && BytesAt(g, DataStart(|es|), DataImage(es))
  }

  lemma {:induction false} FileImageLaidOut(es: seq<Entry>)
    ensures LaidOut(FileImage(es), es)
  {
    ThreeParts(Header(es), IndexImage(es, DataStart(|es|)), DataImage(es), FileImage(es));
  }

  /** Header fields of a laid-out file: version 0, the entry count, and a
      tombstone flag that is 1 exactly when some entry is a tombstone. */
  lemma {:induction false} HeaderOfLaidOut(g: Bytes, es: seq<Entry>)
    requires LaidOut(g, es) && Fits(es)
    ensures FileVersion(g) == Some(Version)
    ensures RecordsCount(g) == Some(|es|)
    ensures TombstoneFlag(g) == Some(if HasTombstone(es) then 1 else 0)
  {
    var flag := if HasTombstone(es) then 1 else 0;
    var a, b, c := EncodeLong(Version), EncodeLong(|es|), EncodeLong(flag);
    ThreeParts(a, b, c, Header(es));
    BytesAtWithin(g, 0, Header(es), 0, a);
    BytesAtWithin(g, 0, Header(es), 8, b);
    BytesAtWithin(g, 0, Header(es), 16, c);
    LongAt(g, 0, Version);
    LongAt(g, 8, |es|);
    LongAt(g, 16, flag);
  }

  /** Index slot i holds the position of entry i -- the data start plus the
      sizes of the entries before it -- when the index region sits after the header. */
  lemma {:induction false} PositionInIndex(g: Bytes, es: seq<Entry>, i: int, offset: int)
    requires BytesAt(g, IndexHeaderSize, IndexImage(es, DataStart(|es|)))
    requires Fits(es) && 0 <= i < |es|
    requires offset == DataStart(|es|) + DataOffset(es, i)
    ensures EntryPosition(g, i) == Some(offset)
  {
    IndexImageAt(es, DataStart(|es|), i);
    BytesAtWithin(g, IndexHeaderSize, IndexImage(es, DataStart(|es|)), 8 * i, EncodeLong(offset));
    DataSizeMonotone(es, i);
    LongAt(g, IndexHeaderSize + 8 * i, offset);
  }


  /** The key and value lengths of an entry of a file that fits are longs. */
  lemma {:induction false} LengthsAreLongs(es: seq<Entry>, i: int)
    requires Fits(es) && 0 <= i < |es|
    ensures IsLong(|es[i].key|) && (es[i].value.Some? ==> IsLong(|es[i].value.value|))
  {
    DataSizeMonotone(es, i);
  }

  /** Entry i decodes to es[i] when the data region sits at the data start
      and index slot i points at entry i's bytes, which start at offset. */
  lemma {:induction false} DecodeInData(g: Bytes, es: seq<Entry>, i: int, offset: int)
    requires BytesAt(g, DataStart(|es|), DataImage(es))
    requires Fits(es) && 0 <= i < |es|
    requires offset == DataStart(|es|) + DataOffset(es, i)
    requires EntryPosition(g, i) == Some(offset)
    ensures DecodeEntry(g, i) == Ok(es[i])
  {
    EntryInData(g, es, i);
    LengthsAreLongs(es, i);
    DecodeEntryAt(g, i, offset, es[i]);
  }

  /** Entry i's bytes sit in g where the data region places them. */
  lemma {:induction false} EntryInData(g: Bytes, es: seq<Entry>, i: int)
    requires BytesAt(g, DataStart(|es|), DataImage(es))
    requires 0 <= i < |es|
    ensures BytesAt(g, DataStart(|es|) + DataOffset(es, i), EntryBytes(es[i]))
  {
    DataImageAt(es, i);
    BytesAtWithin(g, DataStart(|es|), DataImage(es), DataOffset(es, i), EntryBytes(es[i]));
  }

  /** Entry i of a laid-out file decodes to the i-th entry written. */
  lemma {:induction false} DecodeInLaidOut(g: Bytes, es: seq<Entry>, i: int)
    requires LaidOut(g, es) && Fits(es) && 0 <= i < |es|
    ensures DecodeEntry(g, i) == Ok(es[i])
  {
    DecodeAtOffset(g, es, i, DataStart(|es|) + DataOffset(es, i));
  }

  /** DecodeInLaidOut, with the offset of entry i named. */
  lemma {:induction false} DecodeAtOffset(g: Bytes, es: seq<Entry>, i: int, offset: int)
    requires LaidOut(g, es) && Fits(es) && 0 <= i < |es|
    requires offset == DataStart(|es|) + DataOffset(es, i)
    ensures DecodeEntry(g, i) == Ok(es[i])
  {
    PositionInIndex(g, es, i, offset);
    DecodeInData(g, es, i, offset);
  }

  /** A laid-out file is readable and holds exactly es, in order. */
  lemma {:induction false} EntriesOfLaidOut(g: Bytes, es: seq<Entry>)
    requires LaidOut(g, es) && Fits(es)
    ensures Readable(g) && Entries(g) == es
    ensures Sorted(es) ==> Valid(g)
  {
    HeaderOfLaidOut(g, es);
    forall i | 0 <= i < |es|
      ensures DecodeEntry(g, i) == Ok(es[i])
    {
      DecodeInLaidOut(g, es, i);
    }
    assert Readable(g);
    assert Entries(g) == es;
  }

  /** Header fields of a written file. */
  lemma {:induction false} HeaderFields(es: seq<Entry>)
    requires Fits(es)
    ensures FileVersion(FileImage(es)) == Some(Version)
    ensures RecordsCount(FileImage(es)) == Some(|es|)
    ensures TombstoneFlag(FileImage(es)) == Some(if HasTombstone(es) then 1 else 0)
  {
    FileImageLaidOut(es);
    HeaderOfLaidOut(FileImage(es), es);
  }

  /** Round trip: decoding entry i of a written file gives back the i-th
      entry written, with a null value exactly where a tombstone was written. */
  lemma {:induction false} DecodeEntryRoundTrip(es: seq<Entry>, i: int)
    requires Fits(es) && 0 <= i < |es|
    ensures DecodeEntry(FileImage(es), i) == Ok(es[i])
  {
    FileImageLaidOut(es);
    DecodeInLaidOut(FileImage(es), es, i);
  }

  /** A written file is readable and its entries are exactly the entries
      written; if they were sorted the file is a valid generation. */
  lemma {:induction false} SavedFileEntries(es: seq<Entry>)
    requires Fits(es)
    ensures Readable(FileImage(es)) && Entries(FileImage(es)) == es
    ensures Sorted(es) ==> Valid(FileImage(es))
  {
    FileImageLaidOut(es);
    EntriesOfLaidOut(FileImage(es), es);
  }

  /** The sizes getSizeOnDisk reports, summed over a file's entries. */
  function TotalSizeOnDisk(es: seq<Entry>): int {
    if es == [] then 0 else TotalSizeOnDisk(es[..|es| - 1]) + SizeOnDisk(es[|es| - 1])
  }

  /** Size accounting: a written file is the header plus, for every entry,
      exactly what getSizeOnDisk reports for it. */
  lemma {:induction false} FileSizeIsSizeOnDisk(es: seq<Entry>)
    ensures |FileImage(es)| == IndexHeaderSize + TotalSizeOnDisk(es)
    decreases |es|
  {
    if es != [] {
      FileSizeIsSizeOnDisk(es[..|es| - 1]);
    }
  }
}
