/** Storage.save and Storage.writeRecord: the two passes over the entries
    that produce a generation file, writing into a buffer of the final size.

    The buffer stands for the memory-mapped temporary file; returning its
    contents stands for the atomic move that publishes it. */
module SSTableWriter {
  import opened Types
  import opened Int64
  import opened SSTableFormat

  // ------------------------------------------------------------ buffers

  /** h differs from g at most inside [lo, hi). */
  ghost predicate Outside(g: Bytes, h: Bytes, lo: int, hi: int) {
    |g| == |h| && forall k :: 0 <= k < |g| && !(lo <= k < hi) ==> h[k] == g[k]
  }

  /** A placement survives a write that does not touch it. */
  lemma {:induction false} BytesAtKept(g: Bytes, h: Bytes, offset: int, b: Bytes, lo: int, hi: int)
    requires BytesAt(g, offset, b) && Outside(g, h, lo, hi)
    requires offset + |b| <= lo || hi <= offset
    ensures BytesAt(h, offset, b)
  {
    forall k | 0 <= k < |b|
      ensures h[offset + k] == ByteOf(b, k)
    {
      assert g[offset + k] == ByteOf(b, k);
    }
  }

  /** Two adjacent placements make one placement of the concatenation. */
  lemma {:induction false} BytesAtJoin(g: Bytes, offset: int, p: Bytes, q: Bytes)
    requires BytesAt(g, offset, p) && BytesAt(g, offset + |p|, q)
    ensures BytesAt(g, offset, p + q)
  {
    forall k | 0 <= k < |p + q|
      ensures g[offset + k] == ByteOf(p + q, k)
    {
      if k < |p| {
        assert g[offset + k] == ByteOf(p, k);
      } else {
        assert g[offset + |p| + (k - |p|)] == ByteOf(q, k - |p|);
      }
    }
  }

  /** Two buffers that hold the same three consecutive parts over their whole
      length are equal. */
  lemma {:induction false} SameParts(g: Bytes, h: Bytes, p: Bytes, q: Bytes, s: Bytes)
    requires |g| == |h| == |p| + |q| + |s|
    requires BytesAt(g, 0, p) && BytesAt(g, |p|, q) && BytesAt(g, |p| + |q|, s)
    requires BytesAt(h, 0, p) && BytesAt(h, |p|, q) && BytesAt(h, |p| + |q|, s)
    ensures g == h
  {
    forall k | 0 <= k < |g|
      ensures g[k] == h[k]
    {
      if k < |p| {
        assert g[0 + k] == ByteOf(p, k) == h[0 + k];
      } else if k < |p| + |q| {
        assert g[|p| + (k - |p|)] == ByteOf(q, k - |p|) == h[|p| + (k - |p|)];
      } else {
        var j := k - |p| - |q|;
        assert g[|p| + |q| + j] == ByteOf(s, j) == h[|p| + |q| + j];
      }
    }
  }

  /** A buffer laid out for es is exactly the file image of es. */
  lemma {:induction false} LaidOutIsFileImage(g: Bytes, es: seq<Entry>)
    requires LaidOut(g, es)
    ensures g == FileImage(es)
  {
    FileImageLaidOut(es);
    SameParts(g, FileImage(es), Header(es), IndexImage(es, DataStart(|es|)), DataImage(es));
  }

  // ------------------------------------------------------------ images, one entry at a time

  lemma {:induction false} DataOffsetStep(es: seq<Entry>, k: int)
    requires 0 <= k < |es|
    ensures DataOffset(es, k + 1) == DataOffset(es, k) + EntrySize(es[k])
  {
    assert es[..k + 1][..k] == es[..k];
  }

  lemma {:induction false} DataImageStep(es: seq<Entry>, k: int)
    requires 0 <= k < |es|
    ensures DataImage(es[..k + 1]) == DataImage(es[..k]) + EntryBytes(es[k])
  {
    assert es[..k + 1][..k] == es[..k];
  }

  lemma {:induction false} IndexImageStep(es: seq<Entry>, k: int, base: int)
    requires 0 <= k < |es|
    ensures IndexImage(es[..k + 1], base) == IndexImage(es[..k], base) + EncodeLong(base + DataOffset(es, k))
  {
    assert es[..k + 1][..k] == es[..k];
  }

  /** What the second pass of save has written after k entries: their index
      slots after the header, their records from the data start on. */
  ghost predicate Written(g: Bytes, es: seq<Entry>, k: int) {
    && 0 <= k <= |es|
    && BytesAt(g, IndexHeaderSize, IndexImage(es[..k], DataStart(|es|)))
    && BytesAt(g, DataStart(|es|), DataImage(es[..k]))
  }

  /** A placement survives three writes that do not touch it. */
  lemma {:induction false} KeptThrough(g0: Bytes, g1: Bytes, g2: Bytes, g3: Bytes, offset: int, b: Bytes,
                                       lo1: int, hi1: int, lo2: int, hi2: int, lo3: int, hi3: int)
    requires BytesAt(g0, offset, b)
    requires Outside(g0, g1, lo1, hi1) && (offset + |b| <= lo1 || hi1 <= offset)
    requires Outside(g1, g2, lo2, hi2) && (offset + |b| <= lo2 || hi2 <= offset)
    requires Outside(g2, g3, lo3, hi3) && (offset + |b| <= lo3 || hi3 <= offset)
    ensures BytesAt(g3, offset, b)
  {
    BytesAtKept(g0, g1, offset, b, lo1, hi1);
    BytesAtKept(g1, g2, offset, b, lo2, hi2);
    BytesAtKept(g2, g3, offset, b, lo3, hi3);
  }

  /** Writing slot k extends the index by entry k's position. */
  lemma {:induction false} IndexStep(g0: Bytes, g1: Bytes, g2: Bytes, g3: Bytes, es: seq<Entry>, k: int,
                                     slotAt: int, offset: int, keyEnd: int, valueEnd: int)
    requires 0 <= k < |es|
    requires BytesAt(g0, IndexHeaderSize, IndexImage(es[..k], DataStart(|es|)))
    requires slotAt == IndexHeaderSize + 8 * k
    requires offset == DataStart(|es|) + DataOffset(es, k)
    requires offset <= keyEnd <= valueEnd
    requires Outside(g0, g1, slotAt, slotAt + 8) && BytesAt(g1, slotAt, EncodeLong(offset))
    requires Outside(g1, g2, offset, keyEnd) && Outside(g2, g3, keyEnd, valueEnd)
    ensures BytesAt(g3, IndexHeaderSize, IndexImage(es[..k + 1], DataStart(|es|)))
  {
    var index := IndexImage(es[..k], DataStart(|es|));
    KeptThrough(g0, g1, g2, g3, IndexHeaderSize, index, slotAt, slotAt + 8, offset, keyEnd, keyEnd, valueEnd);
    KeptThrough(g1, g1, g2, g3, slotAt, EncodeLong(offset), offset, keyEnd, offset, keyEnd, keyEnd, valueEnd);
    BytesAtJoin(g3, IndexHeaderSize, index, EncodeLong(offset));
    IndexImageStep(es, k, DataStart(|es|));
  }

  /** Writing entry k's two records where the data so far ends extends the data region. */
  lemma {:induction false} DataStep(g0: Bytes, g1: Bytes, g2: Bytes, g3: Bytes, es: seq<Entry>, k: int,
                                    slotAt: int, offset: int, keyEnd: int, valueEnd: int)
    requires 0 <= k < |es|
    requires BytesAt(g0, DataStart(|es|), DataImage(es[..k]))
    requires slotAt + 8 <= DataStart(|es|)
    requires offset == DataStart(|es|) + DataOffset(es, k)
    requires keyEnd == offset + RecordSize(Some(es[k].key))
    requires valueEnd == keyEnd + RecordSize(es[k].value)
    requires Outside(g0, g1, slotAt, slotAt + 8)
    requires Outside(g1, g2, offset, keyEnd) && BytesAt(g2, offset, RecordBytes(Some(es[k].key)))
    requires Outside(g2, g3, keyEnd, valueEnd) && BytesAt(g3, keyEnd, RecordBytes(es[k].value))
    ensures BytesAt(g3, DataStart(|es|), DataImage(es[..k + 1]))
  {
    var data, key := DataImage(es[..k]), RecordBytes(Some(es[k].key));
    KeptThrough(g0, g1, g2, g3, DataStart(|es|), data, slotAt, slotAt + 8, offset, keyEnd, keyEnd, valueEnd);
    BytesAtKept(g2, g3, offset, key, keyEnd, valueEnd);
    BytesAtJoin(g3, offset, key, RecordBytes(es[k].value));
    BytesAtJoin(g3, DataStart(|es|), data, EntryBytes(es[k]));
    DataImageStep(es, k);
  }

  /** Entry k's slot and then its two records, written over a file holding
      the first k entries, give a file holding the first k + 1 and leave every
      other byte alone. */
  lemma {:induction false} EntryStep(g0: Bytes, g1: Bytes, g2: Bytes, g3: Bytes, es: seq<Entry>, k: int,
                                     offset: int, keyEnd: int, valueEnd: int)
    requires 0 <= k < |es| && Written(g0, es, k)
    requires offset == DataStart(|es|) + DataOffset(es, k)
    requires keyEnd == offset + RecordSize(Some(es[k].key))
    requires valueEnd == keyEnd + RecordSize(es[k].value)
    requires Outside(g0, g1, IndexHeaderSize + 8 * k, IndexHeaderSize + 8 * k + 8)
    requires BytesAt(g1, IndexHeaderSize + 8 * k, EncodeLong(offset))
    requires Outside(g1, g2, offset, keyEnd) && BytesAt(g2, offset, RecordBytes(Some(es[k].key)))
    requires Outside(g2, g3, keyEnd, valueEnd) && BytesAt(g3, keyEnd, RecordBytes(es[k].value))
    ensures Written(g3, es, k + 1)
    ensures valueEnd == DataStart(|es|) + DataOffset(es, k + 1)
    ensures |g3| == |g0|
    ensures forall i :: 0 <= i < IndexHeaderSize && i < |g0| ==> g3[i] == g0[i]
    ensures forall i ::
              (0 <= i < |g0| && !(IndexHeaderSize + 8 * k <= i < IndexHeaderSize + 8 * k + 8)
                && !(offset <= i < valueEnd)) ==> g3[i] == g0[i]
  {
    var slotAt := IndexHeaderSize + 8 * k;
    IndexStep(g0, g1, g2, g3, es, k, slotAt, offset, keyEnd, valueEnd);
    DataStep(g0, g1, g2, g3, es, k, slotAt, offset, keyEnd, valueEnd);
    DataOffsetStep(es, k);
  }

  /** The header written last completes the layout. */
  lemma {:induction false} HeaderStep(g0: Bytes, g1: Bytes, g2: Bytes, g3: Bytes, es: seq<Entry>, flag: int)
    requires Written(g0, es, |es|) && |g0| == DataStart(|es|) + DataSize(es)
    requires flag == if HasTombstone(es) then 1 else 0
    requires Outside(g0, g1, 0, 8) && BytesAt(g1, 0, EncodeLong(Version))
    requires Outside(g1, g2, 8, 16) && BytesAt(g2, 8, EncodeLong(|es|))
    requires Outside(g2, g3, 16, 24) && BytesAt(g3, 16, EncodeLong(flag))
    ensures LaidOut(g3, es)
  {
    assert es[..|es|] == es;
    var index, data := IndexImage(es, DataStart(|es|)), DataImage(es);
    BytesAtKept(g0, g1, IndexHeaderSize, index, 0, 8);
    BytesAtKept(g1, g2, IndexHeaderSize, index, 8, 16);
    BytesAtKept(g2, g3, IndexHeaderSize, index, 16, 24);
    BytesAtKept(g0, g1, DataStart(|es|), data, 0, 8);
    BytesAtKept(g1, g2, DataStart(|es|), data, 8, 16);
    BytesAtKept(g2, g3, DataStart(|es|), data, 16, 24);
    BytesAtKept(g1, g2, 0, EncodeLong(Version), 8, 16);
    BytesAtKept(g2, g3, 0, EncodeLong(Version), 16, 24);
    BytesAtKept(g2, g3, 8, EncodeLong(|es|), 16, 24);
    BytesAtJoin(g3, 0, EncodeLong(Version), EncodeLong(|es|));
    BytesAtJoin(g3, 0, EncodeLong(Version) + EncodeLong(|es|), EncodeLong(flag));
  }

  // ------------------------------------------------------------ the writer

  /** MemoryAccess.setLongAtOffset: the eight bytes of v at offset. */
  method SetLong(file: array<byte>, offset: int, v: int)
    requires 0 <= offset && offset + LongBytes <= file.Length
    modifies file
    ensures BytesAt(file[..], offset, EncodeLong(v))
    ensures Outside(old(file[..]), file[..], offset, offset + LongBytes)
  {
    var b := EncodeLong(v);
    forall k | 0 <= k < LongBytes {
      file[offset + k] := b[k];
    }
    assert forall k :: 0 <= k < LongBytes ==> file[..][offset + k] == ByteOf(b, k);
  }

  /** Storage.writeRecord: the record's length (-1 for an absent one), then
      its bytes; answers the number of bytes written. */
  method WriteRecord(file: array<byte>, offset: int, record: Option<Bytes>) returns (written: int)
    requires 0 <= offset && offset + RecordSize(record) <= file.Length
    modifies file
    ensures written == RecordSize(record)
    ensures BytesAt(file[..], offset, RecordBytes(record))
    ensures Outside(old(file[..]), file[..], offset, offset + written)
  {
    match record
    case None =>
      SetLong(file, offset, TombstoneLength);
      written := LongBytes;
    case Some(r) =>
      SetLong(file, offset, |r|);
      ghost var withLength := file[..];
      forall k | 0 <= k < |r| {
        file[offset + LongBytes + k] := r[k];
      }
      assert Outside(withLength, file[..], offset + LongBytes, offset + LongBytes + |r|);
      assert BytesAt(file[..], offset + LongBytes, r) by {
        assert forall k :: 0 <= k < |r| ==> file[..][offset + LongBytes + k] == ByteOf(r, k);
      }
      BytesAtKept(withLength, file[..], offset, EncodeLong(|r|), offset + LongBytes, offset + LongBytes + |r|);
      BytesAtJoin(file[..], offset, EncodeLong(|r|), r);
      written := LongBytes + |r|;
  }

  /** The first pass of Storage.save: the data size, the entry count and
      whether any entry is a tombstone. */
  method Measure(entries: seq<Entry>) returns (size: int, entriesCount: int, hasTombstone: bool)
    ensures size == DataSize(entries)
    ensures entriesCount == |entries|
    ensures hasTombstone == HasTombstone(entries)
  {
    size := 0;
    entriesCount := 0;
    hasTombstone := false;
    while entriesCount < |entries|
      invariant 0 <= entriesCount <= |entries|
      invariant size == DataOffset(entries, entriesCount)
      invariant hasTombstone == HasTombstone(entries[..entriesCount])
    {
      var entry := entries[entriesCount];
      DataOffsetStep(entries, entriesCount);
      HasTombstoneStep(entries, entriesCount);
      size := size + EntrySize(entry);
      if entry.IsTombstone() {
        hasTombstone := true;
      }
      entriesCount := entriesCount + 1;
    }
    assert entries[..entriesCount] == entries;
  }

  lemma {:induction false} HasTombstoneStep(es: seq<Entry>, k: int)
    requires 0 <= k < |es|
    ensures HasTombstone(es[..k + 1]) <==> HasTombstone(es[..k]) || es[k].IsTombstone()
  {
    var prefix, longer := es[..k], es[..k + 1];
    if HasTombstone(longer) && !es[k].IsTombstone() {
      var i :| 0 <= i < |longer| && longer[i].IsTombstone();
      assert prefix[i] == longer[i];
    }
    if HasTombstone(prefix) {
      var i :| 0 <= i < |prefix| && prefix[i].IsTombstone();
      assert longer[i] == prefix[i];
    }
    if es[k].IsTombstone() {
      assert longer[k] == es[k];
    }
  }

  /** The second pass of Storage.save: entry by entry, its data offset into
      its index slot, then its key record and its value record. */
  method WriteEntries(file: array<byte>, entries: seq<Entry>)
    requires file.Length == DataStart(|entries|) + DataSize(entries)
    modifies file
    ensures Written(file[..], entries, |entries|)
    ensures forall k :: 0 <= k < IndexHeaderSize ==> file[k] == old(file[k])
  {
    var index := 0;
    var offset := DataStart(|entries|);
    assert entries[..0] == [];
    while index < |entries|
      invariant 0 <= index <= |entries|
      invariant offset == DataStart(|entries|) + DataOffset(entries, index)
      invariant Written(file[..], entries, index)
      invariant forall k :: 0 <= k < IndexHeaderSize ==> file[k] == old(file[k])
    {
      offset := WriteEntry(file, entries, index, offset);
      index := index + 1;
    }
  }

  /** One iteration of the second pass: entry index's slot and records. */
  method WriteEntry(file: array<byte>, entries: seq<Entry>, index: int, offset: int) returns (next: int)
    requires file.Length == DataStart(|entries|) + DataSize(entries)
    requires 0 <= index < |entries| && Written(file[..], entries, index)
    requires offset == DataStart(|entries|) + DataOffset(entries, index)
    modifies file
    ensures Written(file[..], entries, index + 1)
    ensures next == DataStart(|entries|) + DataOffset(entries, index + 1)
    ensures forall k ::
              (0 <= k < file.Length && !(IndexHeaderSize + 8 * index <= k < IndexHeaderSize + 8 * index + 8)
                && !(offset <= k < next)) ==> file[..][k] == old(file[..])[k]
    ensures forall k :: 0 <= k < IndexHeaderSize ==> file[k] == old(file[k])
  {
    var entry := entries[index];
    DataSizeMonotone(entries, index);
    ghost var g0 := file[..];
    SetLong(file, IndexHeaderSize + 8 * index, offset);
    ghost var g1 := file[..];
    var keySize := WriteRecord(file, offset, Some(entry.key));
    ghost var g2 := file[..];
    var valueSize := WriteRecord(file, offset + keySize, entry.value);
    next := offset + keySize + valueSize;
    EntryStep(g0, g1, g2, file[..], entries, index, offset, offset + keySize, next);
  }

  /** Storage.save: measure, write the entries, write the header last. The
      result is the file's contents. */
  method Save(entries: seq<Entry>) returns (image: Bytes)
    requires Fits(entries)
    ensures image == FileImage(entries)
  {
    var size, entriesCount, hasTombstone := Measure(entries);
    var dataStart := DataStart(entriesCount);
    var file := new byte[dataStart + size];
    WriteEntries(file, entries);
    ghost var g0 := file[..];
    SetLong(file, 0, Version);
    ghost var g1 := file[..];
    SetLong(file, 8, entriesCount);
    ghost var g2 := file[..];
    SetLong(file, 16, if hasTombstone then 1 else 0);
    HeaderStep(g0, g1, g2, file[..], entries, if hasTombstone then 1 else 0);
    image := file[..];
    LaidOutIsFileImage(image, entries);
  }
}
