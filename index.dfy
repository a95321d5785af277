/** The binary search over a generation file's index (Storage.entryIndex and
    Storage.greaterOrEqualEntryIndex). The source returns a long: the entry's
    index when the key is present, ~p (= -p-1) when it is absent and p is
    where it would be inserted. Here that long is the tagged value Search. */
module SSTableIndex {
  import opened Types
  import opened Lexicographic
  import opened SSTableFormat

  datatype Search = Found(index: int) | NotFound(insertion: int)

  /** Number of entries whose key sorts strictly before key. */
  function CountLess(es: seq<Entry>, key: Bytes): (n: int)
    ensures 0 <= n <= |es|
  {
    if es == [] then 0
    else CountLess(es[..|es| - 1], key) + (if Less(es[|es| - 1].key, key) then 1 else 0)
  }

  /** s is the search answer the source promises for key among es: the index
      of the entry holding key, or, when no entry holds it, the number of keys
      below it. */
  ghost predicate Answers(es: seq<Entry>, key: Bytes, s: Search) {
    match s
    case Found(i) => 0 <= i < |es| && es[i].key == key
    case NotFound(p) => p == CountLess(es, key) && forall i :: 0 <= i < |es| ==> es[i].key != key
  }

  /** Key i of the file is the key of entry i of es, for every i below |es|. */
  ghost predicate KeysOf(g: Bytes, es: seq<Entry>) {
    forall i :: 0 <= i < |es| ==> KeyAt(g, i) == Some(es[i].key)
  }

  // ----------------------------------------------------- order lemmas

  /** In a sorted run everything up to an entry below key is below key. */
  lemma {:induction false} SortedBelow(es: seq<Entry>, m: int, key: Bytes)
    requires Sorted(es) && 0 <= m < |es| && Less(es[m].key, key)
    ensures forall i :: 0 <= i <= m ==> Less(es[i].key, key)
  {
    forall i | 0 <= i < m
      ensures Less(es[i].key, key)
    {
      LessTransitive(es[i].key, es[m].key, key);
    }
  }

  /** In a sorted run everything from an entry above key on is above key. */
  lemma {:induction false} SortedAbove(es: seq<Entry>, m: int, key: Bytes)
    requires Sorted(es) && 0 <= m < |es| && Less(key, es[m].key)
    ensures forall i :: m <= i < |es| ==> Less(key, es[i].key)
  {
    forall i | m < i < |es|
      ensures Less(key, es[i].key)
    {
      LessTransitive(key, es[m].key, es[i].key);
    }
  }

  /** CountLess is the split point of any run that is below key up to p and
      not below it from p on; no sortedness needed. */
  lemma {:induction false} CountLessOfSplit(es: seq<Entry>, key: Bytes, p: int)
    requires 0 <= p <= |es|
    requires forall i :: 0 <= i < p ==> Less(es[i].key, key)
    requires forall i :: p <= i < |es| ==> !Less(es[i].key, key)
    ensures CountLess(es, key) == p
    decreases |es|
  {
    if es != [] {
      var init := es[..|es| - 1];
      if p == |es| {
        CountLessOfSplit(init, key, p - 1);
      } else {
        CountLessOfSplit(init, key, p);
      }
    }
  }

  /** In a sorted run the keys below key are exactly the first CountLess. */
  lemma {:induction false} CountLessSplits(es: seq<Entry>, key: Bytes)
    requires Sorted(es)
    ensures forall i :: 0 <= i < CountLess(es, key) ==> Less(es[i].key, key)
    ensures forall i :: CountLess(es, key) <= i < |es| ==> !Less(es[i].key, key)
    decreases |es|
  {
    if es != [] {
      var init := es[..|es| - 1];
      assert Sorted(init);
      CountLessSplits(init, key);
      if Less(es[|es| - 1].key, key) {
        SortedBelow(es, |es| - 1, key);
      }
    }
  }

  /** The entry holding key sits at index CountLess. */
  lemma {:induction false} FoundAtCountLess(es: seq<Entry>, key: Bytes, i: int)
    requires Sorted(es) && 0 <= i < |es| && es[i].key == key
    ensures CountLess(es, key) == i
  {
    Trichotomy(key, key);
    if i + 1 < |es| {
      SortedAbove(es, i + 1, key);
      forall j | i < j < |es|
        ensures !Less(es[j].key, key)
      {
        Trichotomy(key, es[j].key);
      }
    }
    CountLessOfSplit(es, key, i);
  }

  /** CountLess grows with the key: a <= b gives CountLess(a) <= CountLess(b). */
  lemma {:induction false} CountLessMonotone(es: seq<Entry>, a: Bytes, b: Bytes)
    requires !Less(b, a)
    ensures CountLess(es, a) <= CountLess(es, b)
    decreases |es|
  {
    if es != [] {
      var k := es[|es| - 1].key;
      CountLessMonotone(es[..|es| - 1], a, b);
      if Less(k, a) {
        Trichotomy(a, b);
        if Less(a, b) {
          LessTransitive(k, a, b);
        }
      }
    }
  }

  /** In a sorted run, the positions CountLess(from) .. CountLess(to)-1 are
      exactly those whose key lies in [from, to). */
  lemma {:induction false} RangeOfPositions(es: seq<Entry>, from: Bytes, to: Bytes, i: int)
    requires Sorted(es) && 0 <= i < |es|
    ensures CountLess(es, from) <= i < CountLess(es, to)
        <==> !Less(es[i].key, from) && Less(es[i].key, to)
  {
    CountLessSplits(es, from);
    CountLessSplits(es, to);
  }

  /** Two answers for the same key in a sorted run agree. */
  lemma {:induction false} AnswerUnique(es: seq<Entry>, key: Bytes, s: Search, t: Search)
    requires Sorted(es) && Answers(es, key, s) && Answers(es, key, t)
    ensures s == t
  {
    if s.Found? && t.Found? && s.index != t.index {
      if s.index < t.index {
        assert Less(es[s.index].key, es[t.index].key);
      } else {
        assert Less(es[t.index].key, es[s.index].key);
      }
      Trichotomy(key, key);
    }
  }

  /** What the search needs from a valid file. */
  lemma {:induction false} ValidKeys(g: Bytes)
    requires Valid(g)
    ensures Sorted(Entries(g)) && |Entries(g)| == RecordsCount(g).value
    ensures KeysOf(g, Entries(g))
  {
    var es := Entries(g);
    forall i | 0 <= i < |es|
      ensures KeyAt(g, i) == Some(es[i].key)
    {
      assert DecodeEntry(g, i) == Ok(es[i]);
    }
  }

  // ---------------------------------------------------------- the search

  /** Storage.entryIndex. Checks the version, reads the count, rejects a null
      key, then narrows [left, right] over the index. The source computes
      mid as (left + right) >>> 1, which is the exact unsigned midpoint of
      two non-negative longs; the unbounded (left + right) / 2 is that value. */
  method EntryIndex(g: Bytes, key: Option<Bytes>) returns (r: Result<Search>)
    ensures FileVersion(g).None? ==> r == Err(OutOfBounds)
    ensures FileVersion(g).Some? && FileVersion(g).value != Version
        ==> r == Err(UnknownVersion(FileVersion(g).value))
    ensures FileVersion(g) == Some(Version) && RecordsCount(g).None? ==> r == Err(OutOfBounds)
    ensures FileVersion(g) == Some(Version) && RecordsCount(g).Some? && key.None? ==> r == Err(NullKey)
    ensures r.Ok? ==> key.Some? && FileVersion(g) == Some(Version) && RecordsCount(g).Some?
    ensures r.Err? ==> r.error.UnknownVersion? || r.error == OutOfBounds || r.error == NullKey
    ensures r.Ok? && r.value.Found?
        ==> 0 <= r.value.index < RecordsCount(g).value && KeyAt(g, r.value.index) == key
    ensures r.Ok? && r.value.NotFound?
        ==> 0 <= r.value.insertion && (r.value.insertion == 0 || r.value.insertion <= RecordsCount(g).value)
    ensures Valid(g) && key.Some? ==> r.Ok? && Answers(Entries(g), key.value, r.value)
  {
    var version := GetLong(g, 0);
    if version.None? {
      return Err(OutOfBounds);
    }
    if version.value != Version {
      return Err(UnknownVersion(version.value));
    }
    var recordsCount := GetLong(g, 8);
    if recordsCount.None? {
      return Err(OutOfBounds);
    }
    if key.None? {
      return Err(NullKey);
    }
    var count := recordsCount.value;
    var k := key.value;
    ghost var valid := Valid(g);
    ghost var es: seq<Entry> := [];
    if valid {
      ValidKeys(g);
      es := Entries(g);
    }

    var left := 0;
    var right := count - 1;
    while left <= right
      invariant valid ==> |es| == count && Sorted(es) && KeysOf(g, es)
      invariant 0 <= left && right < count
      invariant left <= right + 1 || left == 0
      invariant left == 0 || left <= count
      invariant valid ==> forall i :: 0 <= i < left ==> Less(es[i].key, k)
      invariant valid ==> forall i :: 0 <= i < count && right < i ==> Less(k, es[i].key)
      decreases right - left
    {
      var mid := (left + right) / 2;
      var keyForCheck := KeyAt(g, mid);
      if keyForCheck.None? {
        return Err(OutOfBounds);
      }
      var comparedResult := Compare(k, keyForCheck.value);
      if comparedResult > 0 {
        if valid {
          SortedBelow(es, mid, k);
        }
        left := mid + 1;
      } else if comparedResult < 0 {
        if valid {
          SortedAbove(es, mid, k);
        }
        right := mid - 1;
      } else {
        return Ok(Found(mid));
      }
    }
    if valid {
      forall i | 0 <= i < |es|
        ensures es[i].key != k && (left <= i ==> !Less(es[i].key, k))
      {
        Trichotomy(es[i].key, k);
      }
      CountLessOfSplit(es, k, left);
    }
    return Ok(NotFound(left));
  }

  /** Storage.greaterOrEqualEntryIndex: the entry's index if present, else the
      insertion point; on a valid file, the number of keys below key. */
  method GreaterOrEqualEntryIndex(g: Bytes, key: Option<Bytes>) returns (r: Result<int>)
    ensures FileVersion(g).None? ==> r == Err(OutOfBounds)
    ensures FileVersion(g).Some? && FileVersion(g).value != Version
        ==> r == Err(UnknownVersion(FileVersion(g).value))
    ensures FileVersion(g) == Some(Version) && RecordsCount(g).None? ==> r == Err(OutOfBounds)
    ensures FileVersion(g) == Some(Version) && RecordsCount(g).Some? && key.None? ==> r == Err(NullKey)
    ensures r.Err? ==> r.error.UnknownVersion? || r.error == OutOfBounds || r.error == NullKey
    ensures r.Ok? ==> 0 <= r.value && (r.value == 0 || r.value <= RecordsCount(g).value)
    ensures Valid(g) && key.Some? ==> r == Ok(CountLess(Entries(g), key.value))
  {
    var index := EntryIndex(g, key);
    match index
    case Err(e) =>
      r := Err(e);
    case Ok(Found(i)) =>
      if Valid(g) && key.Some? {
        ValidKeys(g);
        FoundAtCountLess(Entries(g), key.value, i);
      }
      r := Ok(i);
    case Ok(NotFound(p)) =>
      r := Ok(p);
  }
}
