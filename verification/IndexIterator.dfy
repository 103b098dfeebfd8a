/** The paginated iterator over the accounts index, and the scan that is built on it. */
module IndexIterator {
  import opened Ascending
  import opened Common
  import opened SlotList

  const ITER_BATCH_SIZE: nat := 1000

  datatype Bound = Included(key: Pubkey) | Excluded(key: Pubkey) | Unbounded

  predicate InRange(k: Pubkey, start: Bound, end: Bound) {
    && (match start case Included(s) => s <= k case Excluded(s) => s < k case Unbounded => true)
    && (match end case Included(e) => k <= e case Excluded(e) => k < e case Unbounded => true)
  }

  /** The bounds of a range as they are written: `a..b`, `a..=b`, and after an excluded start. */
  lemma RangeMeans(k: Pubkey, a: Pubkey, b: Pubkey)
    ensures InRange(k, Included(a), Excluded(b)) <==> a <= k < b
    ensures InRange(k, Included(a), Included(b)) <==> a <= k <= b
    ensures InRange(k, Excluded(a), Excluded(b)) <==> a < k < b
    ensures InRange(k, Excluded(a), Included(b)) <==> a < k <= b
    ensures InRange(k, Unbounded, Excluded(b)) <==> k < b
    ensures InRange(k, Unbounded, Included(b)) <==> k <= b
    ensures InRange(k, Included(a), Unbounded) <==> a <= k
    ensures InRange(k, Excluded(a), Unbounded) <==> a < k
    ensures InRange(k, Unbounded, Unbounded)
  {
  }

  /** The maps of the index, one for each bin. */
  datatype Maps = Maps(bins: seq<map<Pubkey, SlotList>>, bin: Pubkey -> nat) {

    /** Every key is in its own bin, and bins follow the order of keys. */
    ghost predicate Valid() {
      && (forall j: Pubkey, k: Pubkey :: j <= k ==> bin(j) <= bin(k))
      && (forall k: Pubkey :: bin(k) < |bins|)
      && (forall b, k :: 0 <= b < |bins| && k in bins[b] ==> bin(k) == b)
    }

    ghost predicate Has(k: Pubkey)
      requires Valid()
    {
      k in bins[bin(k)]
    }

    /** The keys of the range that are in the bins below n. */
    ghost function KeysBelow(start: Bound, end: Bound, n: nat): (r: set<Pubkey>)
      requires n <= |bins|
    {
      if n == 0 then {}
      else KeysBelow(start, end, n - 1) + set k | k in bins[n - 1] && InRange(k, start, end)
    }

    ghost function KeysIn(start: Bound, end: Bound): (r: set<Pubkey>) {
      KeysBelow(start, end, |bins|)
    }

    lemma {:induction false} InKeysBelow(start: Bound, end: Bound, n: nat, k: Pubkey)
      requires Valid() && n <= |bins|
      ensures k in KeysBelow(start, end, n) <==> Has(k) && bin(k) < n && InRange(k, start, end)
    {
      if n > 0 { InKeysBelow(start, end, n - 1, k); }
    }
  }

  /** The list holds exactly these keys, each once. */
  ghost predicate Lists(list: seq<Pubkey>, keys: set<Pubkey>) {
    Elements(list) == keys && forall i, j :: 0 <= i < j < |list| ==> list[i] != list[j]
  }

  lemma ListsAppend(list: seq<Pubkey>, keys: set<Pubkey>, k: Pubkey)
    requires Lists(list, keys) && k !in keys
    ensures Lists(list + [k], keys + {k})
  {
    forall i | 0 <= i < |list| ensures list[i] != k { assert list[i] in Elements(list); }
    ElementsAppend<Pubkey>(list, k);
  }

  /** Lists a set in any order. */
  method ListKeys(keys: set<Pubkey>) returns (list: seq<Pubkey>)
    ensures Lists(list, keys)
  {
    var rest := keys;
    list := [];
    while rest != {}
      invariant rest <= keys && Lists(list, keys - rest)
      decreases |rest|
    {
      var k :| k in rest;
      ListsAppend(list, keys - rest, k);
      assert keys - (rest - {k}) == (keys - rest) + {k};
      list := list + [k];
      rest := rest - {k};
    }
  }

  /** Lists a set in ascending order. */
  method SortKeys(keys: set<Pubkey>) returns (list: seq<Pubkey>)
    ensures Elements(list) == keys && IsAscending(list)
  {
    var rest := keys;
    list := [];
    while rest != {}
      invariant rest <= keys && Elements(list) == keys - rest
      invariant IsAscending(list)
      invariant forall x, y :: x in list && y in rest ==> x < y
      decreases |rest|
    {
      var least := Least(rest);
      var k: Pubkey := least;
      ElementsAppend<Pubkey>(list, k);
      AscendingAppend(list, k);
      list := list + [k];
      rest := rest - {k};
    }
  }

  /** The items of one map that are in the range, sorted if asked. */
  method Range(m: map<Pubkey, SlotList>, start: Bound, end: Bound, collectAllUnsorted: bool) returns (list: seq<Pubkey>)
    ensures Lists(list, set k | k in m && InRange(k, start, end))
    ensures !collectAllUnsorted ==> IsAscending(list)
  {
    var keys := set k | k in m && InRange(k, start, end);
    if collectAllUnsorted { list := ListKeys(keys); } else { list := SortKeys(keys); }
  }

  // ----- one chunk -----

  /** The chunk is the low end of the keys: ascending, and below all the others. */
  ghost predicate LowPart(chunk: seq<Pubkey>, keys: set<Pubkey>) {
    && IsAscending(chunk)
    && Elements(chunk) <= keys
    && forall x, y :: x in Elements(chunk) && y in keys - Elements(chunk) ==> x < y
  }

  lemma ElementsTake(s: seq<Pubkey>, j: nat)
    requires j < |s|
    ensures Elements(s[..j + 1]) == Elements(s[..j]) + {s[j]}
  {
    assert s[..j + 1] == s[..j] + [s[j]];
  }

  lemma InTake(s: seq<Pubkey>, j: nat, i: nat)
    requires i < |s| && j <= |s|
    ensures i < j ==> s[i] in s[..j]
  {
    if i < j { assert s[..j][i] == s[i]; }
  }

  /** What was collected from the bins below b and the first j items of bin b. */
  ghost predicate Collected(maps: Maps, start: Bound, end: Bound, b: nat, items: seq<Pubkey>, j: nat,
                            chunk: seq<Pubkey>)
    requires b < |maps.bins| && j <= |items|
  {
    Elements(chunk) == maps.KeysBelow(start, end, b) + Elements(items[..j])
  }

  lemma NextIsHigher(maps: Maps, start: Bound, end: Bound, b: nat, items: seq<Pubkey>, j: nat, chunk: seq<Pubkey>,
                     x: Pubkey, y: Pubkey)
    requires maps.Valid() && b < |maps.bins| && j <= |items|
    requires IsAscending(items) && Elements(items) == set k | k in maps.bins[b] && InRange(k, start, end)
    requires Collected(maps, start, end, b, items, j, chunk)
    requires x in Elements(chunk)
    requires y in maps.KeysIn(start, end) && y !in Elements(chunk)
    ensures x < y
  {
    maps.InKeysBelow(start, end, b, x);
    maps.InKeysBelow(start, end, b, y);
    maps.InKeysBelow(start, end, |maps.bins|, y);
    if x in Elements(items[..j]) {
      var i :| 0 <= i < j && items[..j][i] == x;
      assert items[i] == x && x in Elements(items);
      if maps.bin(y) == b {
        assert y in Elements(items);
        var i' :| 0 <= i' < |items| && items[i'] == y;
        InTake(items, j, i');
      }
    }
  }

  lemma CollectedIsLow(maps: Maps, start: Bound, end: Bound, b: nat, items: seq<Pubkey>, j: nat, chunk: seq<Pubkey>)
    requires maps.Valid() && b < |maps.bins| && j <= |items|
    requires IsAscending(items) && Elements(items) == set k | k in maps.bins[b] && InRange(k, start, end)
    requires Collected(maps, start, end, b, items, j, chunk) && IsAscending(chunk)
    ensures LowPart(chunk, maps.KeysIn(start, end))
  {
    forall x | x in Elements(chunk) ensures x in maps.KeysIn(start, end) {
      maps.InKeysBelow(start, end, b, x);
      maps.InKeysBelow(start, end, |maps.bins|, x);
      if x in Elements(items[..j]) { assert x in Elements(items); }
    }
    forall x, y | x in Elements(chunk) && y in maps.KeysIn(start, end) - Elements(chunk) ensures x < y {
      NextIsHigher(maps, start, end, b, items, j, chunk, x, y);
    }
  }

  /** No key of the range is in a bin before that of the start or behind that of the end. */
  function StartBin(maps: Maps, start: Bound): (r: nat) {
    match start
    case Included(k) => maps.bin(k)
    case Excluded(k) => maps.bin(k)
    case Unbounded => 0
  }

  /** `None` stands for the largest number, when there is no end. */
  function EndBinInclusive(maps: Maps, end: Bound): (r: Option<nat>) {
    match end
    case Included(k) => Some(maps.bin(k))
    case Excluded(k) => Some(maps.bin(k))
    case Unbounded => None
  }

  /** The bin to start with, and the bin to stop before. */
  function BinStartAndStop(maps: Maps, start: Bound, end: Bound): (r: (nat, nat)) {
    var startBin := StartBin(maps, start);
    var endBin := EndBinInclusive(maps, end);
    var range := if endBin.Some? && startBin > endBin.value then Some(0)
                 else if endBin.None? then None
                 else Some(endBin.value + 1 - startBin);
    (startBin, if range.None? then |maps.bins| else Min(|maps.bins|, startBin + range.value))
  }

  lemma NothingOutsideBins(maps: Maps, start: Bound, end: Bound)
    requires maps.Valid()
    ensures var (first, stop) := BinStartAndStop(maps, start, end);
            && first < |maps.bins| && maps.KeysBelow(start, end, first) == {}
            && first <= stop <= |maps.bins| && maps.KeysBelow(start, end, stop) == maps.KeysIn(start, end)
  {
    var (first, stop) := BinStartAndStop(maps, start, end);
    var zero: Pubkey := 0;
    assert maps.bin(zero) < |maps.bins|;
    forall k: Pubkey
      ensures k !in maps.KeysBelow(start, end, first)
      ensures k in maps.KeysBelow(start, end, stop) <==> k in maps.KeysIn(start, end)
    {
      maps.InKeysBelow(start, end, first, k);
      maps.InKeysBelow(start, end, stop, k);
      maps.InKeysBelow(start, end, |maps.bins|, k);
    }
  }

  /** The inner loop: adds the items of bin b until the batch is full. */
  method CollectBin(maps: Maps, start: Bound, end: Bound, b: nat, chunk0: seq<Pubkey>)
    returns (chunk: seq<Pubkey>, full: bool)
    requires maps.Valid() && b < |maps.bins|
    requires IsAscending(chunk0) && Elements(chunk0) == maps.KeysBelow(start, end, b) && |chunk0| <= ITER_BATCH_SIZE
    ensures LowPart(chunk, maps.KeysIn(start, end)) && |chunk| <= ITER_BATCH_SIZE
    ensures full ==> |chunk| == ITER_BATCH_SIZE
    ensures !full ==> Elements(chunk) == maps.KeysBelow(start, end, b + 1)
  {
    var items := Range(maps.bins[b], start, end, false);
    chunk, full := chunk0, false;
    var j := 0;
    assert items[..0] == [];
    while j < |items|
      invariant 0 <= j <= |items|
      invariant Collected(maps, start, end, b, items, j, chunk) && IsAscending(chunk) && |chunk| <= ITER_BATCH_SIZE
    {
      if |chunk| >= ITER_BATCH_SIZE {
        full := true;
        break;
      }
      ItemIsHigher(maps, start, end, b, items, j, chunk);
      AscendingAppend(chunk, items[j]);
      ElementsAppend<Pubkey>(chunk, items[j]);
      ElementsTake(items, j);
      chunk := chunk + [items[j]];
      j := j + 1;
    }
    CollectedIsLow(maps, start, end, b, items, j, chunk);
    if !full { assert items[..j] == items; }
  }

  lemma ItemIsHigher(maps: Maps, start: Bound, end: Bound, b: nat, items: seq<Pubkey>, j: nat, chunk: seq<Pubkey>)
    requires maps.Valid() && b < |maps.bins| && j < |items|
    requires IsAscending(items) && Elements(items) == set k | k in maps.bins[b] && InRange(k, start, end)
    requires Collected(maps, start, end, b, items, j, chunk)
    ensures forall x :: x in chunk ==> x < items[j]
  {
    var y := items[j];
    assert y in Elements(items);
    maps.InKeysBelow(start, end, b, y);
    maps.InKeysBelow(start, end, |maps.bins|, y);
    assert y !in items[..j];
    forall x | x in chunk ensures x < y {
      assert x in Elements(chunk);
      NextIsHigher(maps, start, end, b, items, j, chunk, x, y);
    }
  }

  /** The outer loop, in sorted order: the lowest keys of the range, as many as fit. */
  method FillSorted(maps: Maps, start: Bound, end: Bound) returns (chunk: seq<Pubkey>)
    requires maps.Valid()
    ensures LowPart(chunk, maps.KeysIn(start, end)) && |chunk| <= ITER_BATCH_SIZE
    ensures |chunk| < ITER_BATCH_SIZE ==> Elements(chunk) == maps.KeysIn(start, end)
  {
    var (b, stop) := BinStartAndStop(maps, start, end);
    NothingOutsideBins(maps, start, end);
    chunk := [];
    var full := false;
    while b < stop && !full
      invariant b <= stop && (!full ==> Elements(chunk) == maps.KeysBelow(start, end, b))
      invariant LowPart(chunk, maps.KeysIn(start, end)) && |chunk| <= ITER_BATCH_SIZE
      invariant full ==> |chunk| == ITER_BATCH_SIZE
      decreases stop - b, !full
    {
      chunk, full := CollectBin(maps, start, end, b, chunk);
      b := b + 1;
    }
  }

  /** Adds all items of bin b in any order. */
  method AppendBin(maps: Maps, start: Bound, end: Bound, b: nat, chunk0: seq<Pubkey>) returns (chunk: seq<Pubkey>)
    requires maps.Valid() && b < |maps.bins|
    requires Lists(chunk0, maps.KeysBelow(start, end, b))
    ensures Lists(chunk, maps.KeysBelow(start, end, b + 1))
  {
    var items := Range(maps.bins[b], start, end, true);
    DisjointBins(maps, start, end, b);
    ListsConcat(chunk0, items, maps.KeysBelow(start, end, b), set k | k in maps.bins[b] && InRange(k, start, end));
    chunk := chunk0 + items;
  }

  /** The outer loop, in any order: all keys of the range, each once. */
  method FillUnsorted(maps: Maps, start: Bound, end: Bound) returns (chunk: seq<Pubkey>)
    requires maps.Valid()
    ensures Lists(chunk, maps.KeysIn(start, end))
  {
    var (b, stop) := BinStartAndStop(maps, start, end);
    NothingOutsideBins(maps, start, end);
    chunk := [];
    while b < stop
      invariant b <= stop && Lists(chunk, maps.KeysBelow(start, end, b))
    {
      chunk := AppendBin(maps, start, end, b, chunk);
      b := b + 1;
    }
  }

  lemma DisjointBins(maps: Maps, start: Bound, end: Bound, b: nat)
    requires maps.Valid() && b < |maps.bins|
    ensures maps.KeysBelow(start, end, b) !! set k | k in maps.bins[b] && InRange(k, start, end)
  {
    forall k: Pubkey | k in maps.KeysBelow(start, end, b) ensures k !in maps.bins[b] {
      maps.InKeysBelow(start, end, b, k);
    }
  }

  lemma ListsConcat(a: seq<Pubkey>, b: seq<Pubkey>, keysA: set<Pubkey>, keysB: set<Pubkey>)
    requires Lists(a, keysA) && Lists(b, keysB) && keysA !! keysB
    ensures Lists(a + b, keysA + keysB)
  {
    forall i, j | 0 <= i < |a| && 0 <= j < |b| ensures a[i] != b[j] {
      assert a[i] in Elements(a) && b[j] in Elements(b);
    }
  }

  // ----- the iterator -----

  /** Behind a chunk there is left what was not in it. */
  lemma RestAfterChunk(maps: Maps, start: Bound, end: Bound, chunk: seq<Pubkey>)
    requires maps.Valid() && chunk != []
    requires LowPart(chunk, maps.KeysIn(start, end))
    ensures maps.KeysIn(Excluded(chunk[|chunk| - 1]), end) == maps.KeysIn(start, end) - Elements(chunk)
  {
    var last := chunk[|chunk| - 1];
    assert last in Elements(chunk);
    maps.InKeysBelow(start, end, |maps.bins|, last);
    forall k: Pubkey
      ensures k in maps.KeysIn(Excluded(last), end) <==> k in maps.KeysIn(start, end) - Elements(chunk)
    {
      maps.InKeysBelow(start, end, |maps.bins|, k);
      maps.InKeysBelow(Excluded(last), end, |maps.bins|, k);
      if k in Elements(chunk) {
        var i :| 0 <= i < |chunk| && chunk[i] == k;
      }
    }
  }

  /** Holds no content: each chunk is taken from the maps as they are at that time. */
  class AccountsIndexIterator {
    const endBound: Bound
    const collectAllUnsorted: bool
    var startBound: Bound
    var isFinished: bool

    /** The keys of some maps that are still to come. */
    ghost function Rest(maps: Maps): (r: set<Pubkey>)
      reads this
    {
      if isFinished then {} else maps.KeysIn(startBound, endBound)
    }

    constructor (start: Bound, end: Bound, collectAllUnsorted: bool)
      ensures startBound == start && endBound == end && !isFinished
      ensures this.collectAllUnsorted == collectAllUnsorted
    {
      this.collectAllUnsorted := collectAllUnsorted;
      startBound, endBound, isFinished := start, end, false;
    }

    /** The next chunk: never empty, so the start moves on; the lowest keys of those to come. */
    method Next(maps: Maps) returns (r: Option<seq<Pubkey>>)
      requires maps.Valid()
      modifies this
      ensures r.None? <==> old(Rest(maps)) == {}
      ensures r.None? ==> isFinished
      ensures r.Some? ==> r.value != [] && Rest(maps) == old(Rest(maps)) - Elements(r.value) && !old(isFinished)
      ensures r.Some? && !collectAllUnsorted ==> LowPart(r.value, old(Rest(maps))) && |r.value| <= 1000
      ensures r.Some? && !collectAllUnsorted && |r.value| < 1000 ==> Elements(r.value) == old(Rest(maps))
      ensures r.Some? && !collectAllUnsorted ==> !isFinished && startBound == Excluded(r.value[|r.value| - 1])
      ensures r.Some? && collectAllUnsorted ==> Lists(r.value, old(Rest(maps))) && isFinished
    {
      if isFinished { return None; }
      var chunk;
      if collectAllUnsorted {
        chunk := FillUnsorted(maps, startBound, endBound);
      } else {
        chunk := FillSorted(maps, startBound, endBound);
      }
      if chunk == [] {
        isFinished := true;
        return None;
      }
      assert chunk[0] in Elements(chunk);
      if collectAllUnsorted {
        isFinished := true;
      } else {
        RestAfterChunk(maps, startBound, endBound, chunk);
      }
      startBound := Excluded(chunk[|chunk| - 1]);
      r := Some(chunk);
    }
  }

  // ----- scanning -----

  /** What `get` finds for a key. */
  function Find(maps: Maps, ancestors: set<Slot>, roots: set<Slot>, maxRoot: Option<Slot>,
                k: Pubkey): (r: Option<Entry>)
  {
    if maps.bin(k) < |maps.bins| && k in maps.bins[maps.bin(k)]
    then Lookup(maps.bins[maps.bin(k)][k], ancestors, roots, maxRoot) else None
  }

  /** The calls for a list of keys: one for each key that is found. */
  function CallsOf(maps: Maps, ancestors: set<Slot>, roots: set<Slot>, maxRoot: Option<Slot>,
                   keys: seq<Pubkey>): (r: seq<(Pubkey, Entry)>)
  {
    if keys == [] then []
    else
      var n := |keys| - 1;
      var found := Find(maps, ancestors, roots, maxRoot, keys[n]);
      CallsOf(maps, ancestors, roots, maxRoot, keys[..n]) + if found.Some? then [(keys[n], found.value)] else []
  }

  /** The inner loop of a scan: looks up each key of a chunk and calls back. */
  method ScanChunk(maps: Maps, ancestors: set<Slot>, roots: set<Slot>, maxRoot: Option<Slot>, chunk: seq<Pubkey>,
                   calls0: seq<(Pubkey, Entry)>, ghost done: seq<Pubkey>) returns (calls: seq<(Pubkey, Entry)>)
    requires maps.Valid()
    requires forall i :: 0 <= i < |chunk| ==> maps.Has(chunk[i])
    requires calls0 == CallsOf(maps, ancestors, roots, maxRoot, done)
    ensures calls == CallsOf(maps, ancestors, roots, maxRoot, done + chunk)
  {
    calls := calls0;
    assert done + chunk[..0] == done;
    for i := 0 to |chunk|
      invariant calls == CallsOf(maps, ancestors, roots, maxRoot, done + chunk[..i])
    {
      var k := chunk[i];
      var list := maps.bins[maps.bin(k)][k];
      var index := LatestSlot(Some(ancestors), list, maxRoot, roots);
      LatestIsLookup(list, ancestors, roots, maxRoot, index);
      assert (done + chunk[..i + 1])[..|done| + i] == done + chunk[..i];
      if index.Some? {
        calls := calls + [(k, list[index.value])];
      }
    }
    assert chunk[..|chunk|] == chunk;
  }

  /** The keys done so far are all but the rest; in sorted order they are the low end of all. */
  ghost predicate Scanned(keys: seq<Pubkey>, rest: set<Pubkey>, all: set<Pubkey>, unsorted: bool) {
    && rest <= all
    && Lists(keys, all - rest)
    && (!unsorted ==> LowPart(keys, all))
  }

  lemma LowPartGrows(keys: seq<Pubkey>, chunk: seq<Pubkey>, all: set<Pubkey>, rest: set<Pubkey>)
    requires LowPart(keys, all) && LowPart(chunk, rest) && rest <= all && Elements(keys) == all - rest
    ensures LowPart(keys + chunk, all)
  {
    forall i, j | 0 <= i < |keys| && 0 <= j < |chunk| ensures keys[i] < chunk[j] {
      assert keys[i] in Elements(keys) && chunk[j] in Elements(chunk);
      assert chunk[j] in all - Elements(keys);
    }
    assert Elements(keys + chunk) == Elements(keys) + Elements(chunk);
    forall x, y | x in Elements(keys + chunk) && y in all - Elements(keys + chunk) ensures x < y {
      assert y in all - Elements(keys) && y in rest - Elements(chunk);
    }
  }

  lemma ScannedChunk(keys: seq<Pubkey>, rest: set<Pubkey>, all: set<Pubkey>, unsorted: bool, chunk: seq<Pubkey>)
    requires Scanned(keys, rest, all, unsorted)
    requires !unsorted ==> LowPart(chunk, rest)
    requires unsorted ==> Lists(chunk, rest)
    ensures Scanned(keys + chunk, rest - Elements(chunk), all, unsorted)
  {
    ListsConcat(keys, chunk, all - rest, Elements(chunk));
    assert (all - rest) + Elements(chunk) == all - (rest - Elements(chunk));
    if !unsorted { LowPartGrows(keys, chunk, all, rest); }
  }

  lemma ChunkIsIndexed(maps: Maps, start: Bound, end: Bound, chunk: seq<Pubkey>)
    requires maps.Valid() && Elements(chunk) <= maps.KeysIn(start, end)
    ensures forall i :: 0 <= i < |chunk| ==> maps.Has(chunk[i])
  {
    forall i | 0 <= i < |chunk| ensures maps.Has(chunk[i]) {
      assert chunk[i] in Elements(chunk);
      maps.InKeysBelow(start, end, |maps.bins|, chunk[i]);
    }
  }

  lemma {:induction false} CallsMembers(maps: Maps, ancestors: set<Slot>, roots: set<Slot>, maxRoot: Option<Slot>,
                                        keys: seq<Pubkey>, k: Pubkey, e: Entry)
    ensures (k, e) in CallsOf(maps, ancestors, roots, maxRoot, keys) <==>
              k in keys && Find(maps, ancestors, roots, maxRoot, k) == Some(e)
    decreases |keys|
  {
    if keys != [] {
      var n := |keys| - 1;
      CallsMembers(maps, ancestors, roots, maxRoot, keys[..n], k, e);
      assert keys == keys[..n] + [keys[n]];
    }
  }

  /** A scan calls back exactly the versions that `get` finds for the keys of the range. */
  lemma ScanMatchesGet(maps: Maps, ancestors: set<Slot>, roots: set<Slot>, maxRoot: Option<Slot>,
                       start: Bound, end: Bound, keys: seq<Pubkey>, k: Pubkey, e: Entry)
    requires maps.Valid() && Lists(keys, maps.KeysIn(start, end))
    ensures (k, e) in CallsOf(maps, ancestors, roots, maxRoot, keys) <==>
              InRange(k, start, end) && Find(maps, ancestors, roots, maxRoot, k) == Some(e)
  {
    CallsMembers(maps, ancestors, roots, maxRoot, keys, k, e);
    maps.InKeysBelow(start, end, |maps.bins|, k);
    assert k in keys <==> k in Elements(keys);
  }

  /** Calls are in the order of the keys, at most one for each. */
  lemma {:induction false} CallsFollowKeys(maps: Maps, ancestors: set<Slot>, roots: set<Slot>, maxRoot: Option<Slot>,
                                           keys: seq<Pubkey>, unsorted: bool)
    requires forall i, j :: 0 <= i < j < |keys| ==> keys[i] != keys[j]
    requires !unsorted ==> IsAscending(keys)
    ensures var calls := CallsOf(maps, ancestors, roots, maxRoot, keys);
            forall i, j :: 0 <= i < j < |calls| ==> calls[i].0 != calls[j].0 && (!unsorted ==> calls[i].0 < calls[j].0)
    decreases |keys|
  {
    if keys != [] {
      var n := |keys| - 1;
      var before := CallsOf(maps, ancestors, roots, maxRoot, keys[..n]);
      CallsFollowKeys(maps, ancestors, roots, maxRoot, keys[..n], unsorted);
      forall i | 0 <= i < |before| ensures before[i].0 != keys[n] && (!unsorted ==> before[i].0 < keys[n]) {
        CallsMembers(maps, ancestors, roots, maxRoot, keys[..n], before[i].0, before[i].1);
        assert before[i].0 in keys[..n];
      }
    }
  }

  /** A scan: its calls are those for all keys of the range, in ascending order if asked. */
  method DoScanAccounts(maps: Maps, ancestors: set<Slot>, roots: set<Slot>, maxRoot: Option<Slot>,
                        start: Bound, end: Bound, collectAllUnsorted: bool)
    returns (calls: seq<(Pubkey, Entry)>, ghost keys: seq<Pubkey>)
    requires maps.Valid()
    ensures calls == CallsOf(maps, ancestors, roots, maxRoot, keys)
    ensures Lists(keys, maps.KeysIn(start, end))
    ensures !collectAllUnsorted ==> IsAscending(keys)
    ensures forall k: Pubkey, e: Entry :: (k, e) in calls <==>
              InRange(k, start, end) && Find(maps, ancestors, roots, maxRoot, k) == Some(e)
    ensures forall i, j :: 0 <= i < j < |calls| ==>
              calls[i].0 != calls[j].0 && (!collectAllUnsorted ==> calls[i].0 < calls[j].0)
  {
    var iter := new AccountsIndexIterator(start, end, collectAllUnsorted);
    calls, keys := [], [];
    ghost var all := maps.KeysIn(start, end);
    while true
      invariant fresh(iter) && iter.collectAllUnsorted == collectAllUnsorted
      invariant calls == CallsOf(maps, ancestors, roots, maxRoot, keys)
      invariant Scanned(keys, iter.Rest(maps), all, collectAllUnsorted)
      decreases iter.Rest(maps)
    {
      ghost var rest := iter.Rest(maps);
      var next := iter.Next(maps);
      if next.None? { break; }
      var chunk := next.value;
      assert chunk[0] in Elements(chunk);
      ScannedChunk(keys, rest, all, collectAllUnsorted, chunk);
      ChunkIsIndexed(maps, start, end, chunk);
      calls := ScanChunk(maps, ancestors, roots, maxRoot, chunk, calls, keys);
      keys := keys + chunk;
    }
    forall k: Pubkey, e: Entry
      ensures (k, e) in calls <==> InRange(k, start, end) && Find(maps, ancestors, roots, maxRoot, k) == Some(e)
    {
      ScanMatchesGet(maps, ancestors, roots, maxRoot, start, end, keys, k, e);
    }
    CallsFollowKeys(maps, ancestors, roots, maxRoot, keys, collectAllUnsorted);
  }
}
