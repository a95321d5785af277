/** The storage over a directory's generation files: point reads (newest
    generation first), range cursors (one per generation), closing, and the
    compaction predicate. Generation i is the file named after i; the last
    generation is the newest. */
module SSTableStorage {
  import opened Types
  import opened Lexicographic
  import opened SSTableFormat
  import opened SSTableIndex
  import SSTableWriter

  // ------------------------------------------------- what a read should see

  /** The entry for key in a run of entries, the last one if there are several. */
  function Find(es: seq<Entry>, key: Bytes): (r: Option<Entry>)
    ensures r.Some? ==> r.value in es && r.value.key == key
    ensures r.None? <==> forall i :: 0 <= i < |es| ==> es[i].key != key
  {
    if es == [] then None
    else if es[|es| - 1].key == key then Some(es[|es| - 1])
    else Find(es[..|es| - 1], key)
  }

  /** In a sorted run the entry holding key is the one Find returns. */
  lemma {:induction false} FindAt(es: seq<Entry>, key: Bytes, i: int)
    requires Sorted(es) && 0 <= i < |es| && es[i].key == key
    ensures Find(es, key) == Some(es[i])
    decreases |es|
  {
    if i < |es| - 1 {
      assert Less(es[i].key, es[|es| - 1].key);
      Trichotomy(key, key);
      assert Sorted(es[..|es| - 1]);
      FindAt(es[..|es| - 1], key, i);
    }
  }

  ghost predicate AllValid(gens: seq<Bytes>) {
    forall i :: 0 <= i < |gens| ==> Valid(gens[i])
  }

  /** The entries of each generation, oldest generation first. */
  ghost function Contents(gens: seq<Bytes>): (runs: seq<seq<Entry>>)
    requires AllValid(gens)
    ensures |runs| == |gens|
    ensures forall i :: 0 <= i < |gens| ==> runs[i] == Entries(gens[i])
  {
    seq(|gens|, i requires 0 <= i < |gens| && AllValid(gens) => Entries(gens[i]))
  }

  /** The answer a point read should give over runs of entries, oldest first:
      the entry of the newest run holding key (possibly a tombstone), or None
      when no run does. */
  function Newest(runs: seq<seq<Entry>>, key: Bytes): (r: Option<Entry>)
    ensures r.Some? ==> r.value.key == key
  {
    if runs == [] then None
    else
      match Find(runs[|runs| - 1], key)
      case Some(e) => Some(e)
      case None => Newest(runs[..|runs| - 1], key)
  }

  /** Run i holds key and no newer run does. */
  predicate Decides(runs: seq<seq<Entry>>, key: Bytes, i: int) {
    && 0 <= i < |runs|
    && Find(runs[i], key).Some?
    && forall j :: i < j < |runs| ==> Find(runs[j], key).None?
  }

  /** The newest run holding key decides the read. */
  lemma {:induction false} NewestWins(runs: seq<seq<Entry>>, key: Bytes, i: int)
    requires Decides(runs, key, i)
    ensures Newest(runs, key) == Find(runs[i], key)
    decreases |runs|
  {
    if i < |runs| - 1 {
      var init := runs[..|runs| - 1];
      assert forall j :: i < j < |init| ==> init[j] == runs[j];
      NewestWins(init, key, i);
    }
  }

  /** Conversely, a read's entry comes from the run that decides it. */
  lemma {:induction false} NewestSource(runs: seq<seq<Entry>>, key: Bytes)
    requires Newest(runs, key).Some?
    ensures exists i :: Decides(runs, key, i) && Find(runs[i], key) == Newest(runs, key)
    decreases |runs|
  {
    var last := |runs| - 1;
    if Find(runs[last], key).Some? {
      assert Decides(runs, key, last);
    } else {
      var init := runs[..last];
      NewestSource(init, key);
      var i :| Decides(init, key, i) && Find(init[i], key) == Newest(init, key);
      assert runs[i] == init[i];
      forall j | i < j < |runs|
        ensures Find(runs[j], key).None?
      {
        if j < last {
          assert runs[j] == init[j];
        }
      }
      assert Decides(runs, key, i);
    }
  }

  /** A read finds nothing exactly when no run holds key. */
  lemma {:induction false} NewestAbsent(runs: seq<seq<Entry>>, key: Bytes)
    ensures Newest(runs, key).None? <==> forall i :: 0 <= i < |runs| ==> Find(runs[i], key).None?
    decreases |runs|
  {
    if runs != [] {
      var init := runs[..|runs| - 1];
      NewestAbsent(init, key);
      assert forall i :: 0 <= i < |init| ==> init[i] == runs[i];
    }
  }

  /** One step of the newest-first scan: run i answers, or the runs below it do. */
  lemma {:induction false} NewestStep(runs: seq<seq<Entry>>, key: Bytes, i: int)
    requires 0 <= i < |runs|
    ensures Find(runs[i], key).Some? ==> Newest(runs[..i + 1], key) == Find(runs[i], key)
    ensures Find(runs[i], key).None? ==> Newest(runs[..i + 1], key) == Newest(runs[..i], key)
  {
    assert runs[..i + 1][..i] == runs[..i];
  }

  /** A generation saved from sorted entries shadows every older one for the
      keys it holds and leaves the reads of the other keys as they were. */
  lemma {:induction false} NewGenerationShadows(gens: seq<Bytes>, es: seq<Entry>, key: Bytes)
    requires AllValid(gens) && Fits(es) && Sorted(es)
    ensures AllValid(gens + [FileImage(es)])
    ensures Newest(Contents(gens + [FileImage(es)]), key)
        == (if Find(es, key).Some? then Find(es, key) else Newest(Contents(gens), key))
  {
    SavedFileEntries(es);
    var next := gens + [FileImage(es)];
    assert AllValid(next) by {
      forall i | 0 <= i < |next|
        ensures Valid(next[i])
      {
        if i < |gens| {
          assert next[i] == gens[i];
        }
      }
    }
    var runs := Contents(next);
    assert runs[..|gens|] == Contents(gens);
    assert runs[|gens|] == es;
  }

  // ---------------------------------------------------------- the storage

  class Storage {
    /** The mapped generation files, oldest first. */
    const sstables: seq<Bytes>
    /** Generation 0's tombstone flag, read once when loading. */
    const hasTombstones: bool
    /** Whether the resource scope holding the mappings is still open. */
    var alive: bool

    /** hasTombstones is the flag stored in generation 0's header. */
    ghost predicate Loaded() {
      hasTombstones == (|sstables| > 0 && TombstoneFlag(sstables[0]) == Some(1))
    }

    constructor (sstables: seq<Bytes>, hasTombstones: bool)
      ensures this.sstables == sstables && this.hasTombstones == hasTombstones && alive
    {
      this.sstables := sstables;
      this.hasTombstones := hasTombstones;
      alive := true;
    }

    /** Storage.load, given the directory's files in generation order. Reading
        generation 0's flag fails when that file is shorter than its header. */
    static method Load(files: seq<Bytes>) returns (r: Result<Storage>)
      ensures r.Err? <==> |files| > 0 && TombstoneFlag(files[0]).None?
      ensures r.Err? ==> r.error == OutOfBounds
      ensures r.Ok? ==> fresh(r.value) && r.value.sstables == files && r.value.alive && r.value.Loaded()
    {
      var hasTombstones := false;
      if |files| > 0 {
        var flag := GetLong(files[0], 16);
        if flag.None? {
          return Err(OutOfBounds);
        }
        hasTombstones := flag.value == 1;
      }
      var storage := new Storage(files, hasTombstones);
      return Ok(storage);
    }

    /** Storage.save(config, previousState, entries): the new file is named
        after the number of existing generations, so it becomes the newest. */
    method SaveNext(entries: seq<Entry>) returns (next: seq<Bytes>)
      requires Fits(entries)
      ensures |next| == |sstables| + 1 && next[..|sstables|] == sstables
      ensures next[|sstables|] == FileImage(entries)
    {
      var image := SSTableWriter.Save(entries);
      next := sstables + [image];
    }

    /** Storage.isClosed: the scope is no longer alive. */
    predicate IsClosed()
      reads this
    {
      !alive
    }

    /** Storage.checkForClose: an IllegalStateException raised by a read is
        reported as StorageClosed once the storage is closed. */
    function CheckForClose(e: Error): (r: Error)
      requires e.IsIllegalState()
      reads this
      ensures r == StorageClosed <==> IsClosed()
      ensures !IsClosed() ==> r == e
    {
      if alive then e else StorageClosed
    }

    /** A read of the 8 bytes at offset of a closed storage's file: the
        memory access checks the bounds first and only then that the scope is
        alive, so an out-of-range read still fails with OutOfBounds. */
    function ClosedRead(g: Bytes, offset: int): (e: Error)
      ensures e == OutOfBounds <==> GetLong(g, offset).None?
      ensures e != OutOfBounds ==> e == AlreadyClosed
    {
      if GetLong(g, offset).None? then OutOfBounds else AlreadyClosed
    }

    /** Storage.entryAt: entry index of sstable. On a closed storage its first
        read, the index slot, fails: out of bounds, or else as closed. */
    function EntryAt(sstable: Bytes, index: int): (r: Result<Entry>)
      reads this
      ensures IsClosed() ==> r == Err(if EntryPosition(sstable, index).None? then OutOfBounds else StorageClosed)
      ensures !IsClosed() ==> r == DecodeEntry(sstable, index)
      ensures !IsClosed() && Valid(sstable) && 0 <= index < |Entries(sstable)|
          ==> r == Ok(Entries(sstable)[index])
    {
      if alive then DecodeEntry(sstable, index)
      else
        var e := ClosedRead(sstable, IndexHeaderSize + 8 * index);
        Err(if e.IsIllegalState() then CheckForClose(e) else e)
    }

    /** Storage.get: the generations are searched newest first and the first
        one holding key answers. */
    method Get(key: Option<Bytes>) returns (r: Result<Option<Entry>>)
      ensures sstables == [] ==> r == Ok(None)
      ensures sstables != [] && IsClosed() ==> r == Err(
          if FileVersion(sstables[|sstables| - 1]).None? then OutOfBounds else StorageClosed)
      ensures sstables != [] && key.None? && !IsClosed() && AllValid(sstables) ==> r == Err(NullKey)
      ensures r.Ok? && r.value.Some? ==> key.Some? && r.value.value.key == key.value
      ensures !IsClosed() && AllValid(sstables) && key.Some? ==> r == Ok(Newest(Contents(sstables), key.value))
    {
      ghost var valid := alive && AllValid(sstables) && key.Some?;
      ghost var runs: seq<seq<Entry>> := if valid then Contents(sstables) else [];
      var i := |sstables| - 1;
      if valid {
        assert runs[..i + 1] == runs;
      }
      while i >= 0
        invariant -1 <= i < |sstables|
        invariant i < |sstables| - 1 ==> alive && key.Some?
        invariant valid ==> Newest(runs, key.value) == Newest(runs[..i + 1], key.value)
      {
        var found := GetInGeneration(sstables[i], key);
        if valid {
          NewestStep(runs, key.value, i);
        }
        if found.Err? || found.value.Some? {
          return found;
        }
        i := i - 1;
      }
      if valid {
        assert runs[..0] == [];
      }
      return Ok(None);
    }

    /** One pass of Storage.get's loop: search one generation for key and
        read the entry found. The exceptions are reported as Storage.get
        reports them. */
    method GetInGeneration(sstable: Bytes, key: Option<Bytes>) returns (r: Result<Option<Entry>>)
      ensures IsClosed() ==> r == Err(if FileVersion(sstable).None? then OutOfBounds else StorageClosed)
      ensures !IsClosed() && Valid(sstable) && key.None? ==> r == Err(NullKey)
      ensures !IsClosed() && Valid(sstable) && key.Some? ==> r == Ok(Find(Entries(sstable), key.value))
      ensures r.Ok? ==> !IsClosed() && key.Some?
      ensures r.Ok? && r.value.Some? ==> r.value.value.key == key.value
    {
      if !alive {
        var e := ClosedRead(sstable, 0);
        return Err(if e.IsIllegalState() then CheckForClose(e) else e);
      }
      var keyFromPos := EntryIndex(sstable, key);
      if keyFromPos.Err? {
        var e := keyFromPos.error;
        return Err(if e.IsIllegalState() then CheckForClose(e) else e);
      }
      match keyFromPos.value
      case Found(index) =>
        var entry := EntryAt(sstable, index);
        if entry.Err? {
          return Err(entry.error);
        }
        if Valid(sstable) {
          ValidKeys(sstable);
          FindAt(Entries(sstable), key.value, index);
        }
        return Ok(Some(entry.value));
      case NotFound(_) =>
        return Ok(None);
    }

    /** The private Storage.iterate(sstable, keyFrom, keyTo): a cursor over the
        positions [lower bound of keyFrom, lower bound of keyTo). */
    method IterateGeneration(sstable: Bytes, keyFrom: Option<Bytes>, keyTo: Option<Bytes>)
      returns (r: Result<Cursor>)
      ensures r.Ok? ==> fresh(r.value) && r.value.storage == this && r.value.sstable == sstable
      ensures IsClosed() ==> r == Err(if FileVersion(sstable).None? then OutOfBounds else AlreadyClosed)
      ensures !IsClosed() && Valid(sstable) && keyFrom.Some? && keyTo.Some?
          ==> r.Ok? && r.value.pos == CountLess(Entries(sstable), keyFrom.value)
              && r.value.limit == CountLess(Entries(sstable), keyTo.value)
      ensures !IsClosed() && FileVersion(sstable).Some? && FileVersion(sstable).value != Version
          ==> r == Err(UnknownVersion(FileVersion(sstable).value))
      ensures !IsClosed() && FileVersion(sstable) == Some(Version) && RecordsCount(sstable).Some? && keyFrom.None?
          ==> r == Err(NullKey)
      ensures !IsClosed() && Valid(sstable) && (keyFrom.None? || keyTo.None?) ==> r == Err(NullKey)
      ensures r.Err? ==> r.error.IsIllegalState() || r.error == OutOfBounds || r.error == NullKey
    {
      if !alive {
        return Err(ClosedRead(sstable, 0));
      }
      var keyFromPos := GreaterOrEqualEntryIndex(sstable, keyFrom);
      if keyFromPos.Err? {
        return Err(keyFromPos.error);
      }
      var keyToPos := GreaterOrEqualEntryIndex(sstable, keyTo);
      if keyToPos.Err? {
        return Err(keyToPos.error);
      }
      var cursor := new Cursor(this, sstable, keyFromPos.value, keyToPos.value);
      return Ok(cursor);
    }

    /** Storage.iterate(keyFrom, keyTo): one cursor per generation, oldest
        first, each over the keys in [keyFrom, keyTo). An IllegalStateException
        is reported through CheckForClose. */
    method Iterate(keyFrom: Option<Bytes>, keyTo: Option<Bytes>) returns (r: Result<seq<Cursor>>)
      ensures sstables == [] ==> r == Ok([])
      ensures sstables != [] && IsClosed() ==> r == Err(
          if FileVersion(sstables[0]).None? then OutOfBounds else StorageClosed)
      ensures r.Ok? ==> |r.value| == |sstables|
      ensures r.Ok? ==> forall i :: 0 <= i < |r.value| ==>
          fresh(r.value[i]) && r.value[i].storage == this && r.value[i].sstable == sstables[i]
      ensures !IsClosed() && AllValid(sstables) && keyFrom.Some? && keyTo.Some? ==> (r.Ok?
          && forall i :: 0 <= i < |r.value| ==>
               r.value[i].pos == CountLess(Entries(sstables[i]), keyFrom.value)
               && r.value[i].limit == CountLess(Entries(sstables[i]), keyTo.value))
      ensures sstables != [] && !IsClosed() && AllValid(sstables) && (keyFrom.None? || keyTo.None?)
          ==> r == Err(NullKey)
    {
      r := CollectCursors(keyFrom, keyTo);
      if r.Err? {
        var e := r.error;
        r := Err(if e.IsIllegalState() then CheckForClose(e) else e);
      }
    }

    /** The body of Storage.iterate(keyFrom, keyTo) inside its try block: the
        cursors of the generations in list order, or the first exception. */
    method CollectCursors(keyFrom: Option<Bytes>, keyTo: Option<Bytes>) returns (r: Result<seq<Cursor>>)
      ensures sstables == [] ==> r == Ok([])
      ensures sstables != [] && IsClosed() ==> r == Err(
          if FileVersion(sstables[0]).None? then OutOfBounds else AlreadyClosed)
      ensures r.Ok? ==> |r.value| == |sstables|
      ensures r.Ok? ==> forall i :: 0 <= i < |r.value| ==>
          fresh(r.value[i]) && r.value[i].storage == this && r.value[i].sstable == sstables[i]
      ensures !IsClosed() && AllValid(sstables) && keyFrom.Some? && keyTo.Some? ==> (r.Ok?
          && forall i :: 0 <= i < |r.value| ==>
               r.value[i].pos == CountLess(Entries(sstables[i]), keyFrom.value)
               && r.value[i].limit == CountLess(Entries(sstables[i]), keyTo.value))
      ensures sstables != [] && !IsClosed() && AllValid(sstables) && (keyFrom.None? || keyTo.None?)
          ==> r == Err(NullKey)
      ensures r.Err? ==> r.error.IsIllegalState() || r.error == OutOfBounds || r.error == NullKey
    {
      var iterators: seq<Cursor> := [];
      var n := 0;
      while n < |sstables|
        invariant 0 <= n <= |sstables| && |iterators| == n
        invariant n > 0 ==> !IsClosed()
        invariant AllValid(sstables) && (keyFrom.None? || keyTo.None?) ==> n == 0
        invariant forall i :: 0 <= i < n ==>
            fresh(iterators[i]) && iterators[i].storage == this && iterators[i].sstable == sstables[i]
        invariant !IsClosed() && AllValid(sstables) && keyFrom.Some? && keyTo.Some? ==>
            forall i :: 0 <= i < n ==>
              iterators[i].pos == CountLess(Entries(sstables[i]), keyFrom.value)
              && iterators[i].limit == CountLess(Entries(sstables[i]), keyTo.value)
      {
        var cursor := IterateGeneration(sstables[n], keyFrom, keyTo);
        if cursor.Err? {
          return Err(cursor.error);
        }
        iterators := iterators + [cursor.value];
        n := n + 1;
      }
      return Ok(iterators);
    }

    /** Storage.close: closes the scope while it is alive. The retry on a
        concurrent close cannot happen here, so the loop runs at most once. */
    method Close()
      modifies this
      ensures IsClosed()
      ensures old(IsClosed()) ==> unchanged(this)
    {
      while alive
        invariant old(IsClosed()) ==> unchanged(this)
        decreases if alive then 1 else 0
      {
        alive := false;
      }
    }

    /** Storage.isCompacted. */
    predicate IsCompacted() {
      if |sstables| == 0 then true
      else if |sstables| > 1 then false
      else !hasTombstones
    }
  }

  /** A loaded storage is compacted exactly when it has no generation, or one
      generation whose stored tombstone flag is not 1; for a generation saved
      from es, exactly when es holds no tombstone. */
  lemma CompactedIff(s: Storage, es: seq<Entry>)
    requires s.Loaded()
    ensures s.IsCompacted() <==> (|s.sstables| == 0
        || (|s.sstables| == 1 && TombstoneFlag(s.sstables[0]) != Some(1)))
    ensures |s.sstables| == 1 && s.sstables[0] == FileImage(es) && Fits(es)
        ==> (s.IsCompacted() <==> !HasTombstone(es))
  {
    if |s.sstables| == 1 && s.sstables[0] == FileImage(es) && Fits(es) {
      HeaderFields(es);
    }
  }

  /** The cursor Storage.iterate(sstable, keyFrom, keyTo) returns. */
  class Cursor {
    const storage: Storage
    const sstable: Bytes
    /** keyToPos: the first position not yielded. */
    const limit: int
    var pos: int

    constructor (storage: Storage, sstable: Bytes, pos: int, limit: int)
      ensures this.storage == storage && this.sstable == sstable
      ensures this.pos == pos && this.limit == limit
    {
      this.storage := storage;
      this.sstable := sstable;
      this.pos := pos;
      this.limit := limit;
    }

    /** hasNext(): the cursor has not reached keyToPos. */
    predicate HasNext()
      reads this
    {
      pos < limit
    }

    /** next(): entry pos, then the position advances. As in the source there
        is no check against limit, and a failed read leaves pos unchanged. */
    method Next() returns (r: Result<Entry>)
      modifies this
      ensures r == storage.EntryAt(sstable, old(pos))
      ensures pos == if r.Ok? then old(pos) + 1 else old(pos)
      ensures !storage.IsClosed() && Valid(sstable) && old(HasNext())
          && 0 <= old(pos) && limit <= |Entries(sstable)|
          ==> r.Ok? && r.value == old(Remaining())[0] && Remaining() == old(Remaining())[1..]
    {
      r := storage.EntryAt(sstable, pos);
      if r.Ok? {
        pos := pos + 1;
      }
    }

    /** The entries the cursor has left to yield. */
    ghost function Remaining(): (es: seq<Entry>)
      reads this
      requires Valid(sstable) && 0 <= pos <= limit <= |Entries(sstable)|
      ensures |es| == limit - pos
      ensures forall k :: 0 <= k < |es| ==> es[k] == Entries(sstable)[pos + k]
    {
      Entries(sstable)[pos..limit]
    }
  }

  /** A cursor made for [from, to) over a valid generation yields exactly the
      entries whose keys lie in [from, to), in key order, and nothing when to
      does not sort after from. */
  lemma {:induction false} CursorYieldsRange(g: Bytes, from: Bytes, to: Bytes)
    requires Valid(g)
    ensures !Less(from, to) ==> CountLess(Entries(g), to) <= CountLess(Entries(g), from)
    ensures forall i :: 0 <= i < |Entries(g)| ==>
        (CountLess(Entries(g), from) <= i < CountLess(Entries(g), to)
         <==> !Less(Entries(g)[i].key, from) && Less(Entries(g)[i].key, to))
  {
    var es := Entries(g);
    if !Less(from, to) {
      CountLessMonotone(es, to, from);
    }
    forall i | 0 <= i < |es|
      ensures CountLess(es, from) <= i < CountLess(es, to)
          <==> !Less(es[i].key, from) && Less(es[i].key, to)
    {
      RangeOfPositions(es, from, to, i);
    }
  }
}
