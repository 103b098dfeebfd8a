/**
 * A scan of the index while the index changes: chunks of keys are taken, and
 * their versions looked up, each at a time of its own. What is called back is
 * the view that the scan pinned.
 */
module ConcurrentScan {
  import opened Ascending
  import opened Common
  import opened SlotList
  import opened IndexIterator
  import opened ScanProtocol
  import opened ScanSafety

  // ----- a changing index that looks the same to the scan -----

  /** The index and its roots over time. */
  datatype World = World(maps: seq<Maps>, roots: seq<set<Slot>>)

  ghost predicate InTime(w: World, clock: nat -> nat) {
    |w.maps| == |w.roots| && forall e: nat :: clock(e) < |w.maps|
  }

  function FindAt(w: World, t: nat, ancestors: set<Slot>, maxRoot: Option<Slot>, k: Pubkey): (r: Option<Entry>)
    requires t < |w.maps| == |w.roots|
  {
    Find(w.maps[t], ancestors, w.roots[t], maxRoot, k)
  }

  /** At any time, versions are found of the same keys, and they are proper ones. */
  ghost predicate Steady(w: World, ancestors: set<Slot>, maxRoot: Option<Slot>, seen: Pubkey -> bool,
                         proper: (Pubkey, Entry) -> bool)
  {
    && |w.maps| == |w.roots|
    && (forall t :: 0 <= t < |w.maps| ==> w.maps[t].Valid())
    && forall t, k: Pubkey :: 0 <= t < |w.maps| ==> SteadyAt(w, t, ancestors, maxRoot, k, seen, proper)
  }

  ghost predicate SteadyAt(w: World, t: nat, ancestors: set<Slot>, maxRoot: Option<Slot>, k: Pubkey,
                           seen: Pubkey -> bool, proper: (Pubkey, Entry) -> bool)
    requires t < |w.maps| == |w.roots|
  {
    var found := FindAt(w, t, ancestors, maxRoot, k);
    (found.Some? <==> seen(k)) && (found.Some? ==> proper(k, found.value))
  }

  // ----- the calls for a list of keys -----

  /** One call, with a proper version, for each key that is seen, in order. */
  ghost predicate CallsFor(calls: seq<(Pubkey, Entry)>, keys: seq<Pubkey>, seen: Pubkey -> bool,
                           proper: (Pubkey, Entry) -> bool)
    decreases |keys|
  {
    if keys == [] then calls == []
    else
      var n, m := |keys| - 1, |calls| - 1;
      if seen(keys[n]) then
        m >= 0 && calls[m].0 == keys[n] && proper(keys[n], calls[m].1) && CallsFor(calls[..m], keys[..n], seen, proper)
      else CallsFor(calls, keys[..n], seen, proper)
  }

  lemma CallsForAppend(calls: seq<(Pubkey, Entry)>, keys: seq<Pubkey>, k: Pubkey, found: Option<Entry>,
                       seen: Pubkey -> bool, proper: (Pubkey, Entry) -> bool)
    requires CallsFor(calls, keys, seen, proper)
    requires (found.Some? <==> seen(k)) && (found.Some? ==> proper(k, found.value))
    ensures CallsFor(if found.Some? then calls + [(k, found.value)] else calls, keys + [k], seen, proper)
  {
    assert (keys + [k])[..|keys|] == keys;
    if found.Some? { assert (calls + [(k, found.value)])[..|calls|] == calls; }
  }

  ghost predicate HasCall(calls: seq<(Pubkey, Entry)>, k: Pubkey) {
    exists i :: 0 <= i < |calls| && calls[i].0 == k
  }

  lemma {:induction false} CallsForKeys(calls: seq<(Pubkey, Entry)>, keys: seq<Pubkey>, seen: Pubkey -> bool,
                                        proper: (Pubkey, Entry) -> bool, k: Pubkey)
    requires CallsFor(calls, keys, seen, proper)
    ensures HasCall(calls, k) <==> k in keys && seen(k)
    ensures forall i :: 0 <= i < |calls| ==> proper(calls[i].0, calls[i].1)
    decreases |keys|
  {
    if keys != [] {
      var n, m := |keys| - 1, |calls| - 1;
      assert keys == keys[..n] + [keys[n]];
      if seen(keys[n]) {
        var before := calls[..m];
        CallsForKeys(before, keys[..n], seen, proper, k);
        assert forall i :: 0 <= i < m ==> before[i] == calls[i];
        assert k == keys[n] ==> calls[m].0 == k;
        assert forall i :: 0 <= i < |calls| ==> i == m || calls[i] == before[i];
      } else {
        CallsForKeys(calls, keys[..n], seen, proper, k);
      }
    }
  }

  /** Different keys, ascending in a sorted scan. */
  ghost predicate KeysInOrder(keys: seq<Pubkey>, unsorted: bool) {
    forall i, j :: 0 <= i < j < |keys| ==> keys[i] != keys[j] && (!unsorted ==> keys[i] < keys[j])
  }

  ghost predicate CallsInOrder(calls: seq<(Pubkey, Entry)>, unsorted: bool) {
    forall i, j :: 0 <= i < j < |calls| ==> calls[i].0 != calls[j].0 && (!unsorted ==> calls[i].0 < calls[j].0)
  }

  lemma {:induction false} CallsForOrder(calls: seq<(Pubkey, Entry)>, keys: seq<Pubkey>, seen: Pubkey -> bool,
                                         proper: (Pubkey, Entry) -> bool, unsorted: bool)
    requires CallsFor(calls, keys, seen, proper) && KeysInOrder(keys, unsorted)
    ensures CallsInOrder(calls, unsorted)
    decreases |keys|
  {
    if keys != [] {
      var n, m := |keys| - 1, |calls| - 1;
      if seen(keys[n]) {
        var before := calls[..m];
        CallsForOrder(before, keys[..n], seen, proper, unsorted);
        forall i | 0 <= i < m ensures before[i].0 != keys[n] && (!unsorted ==> before[i].0 < keys[n]) {
          CallsForKeys(before, keys[..n], seen, proper, before[i].0);
          assert before[i].0 in keys[..n];
        }
      } else {
        CallsForOrder(calls, keys[..n], seen, proper, unsorted);
      }
    }
  }

  // ----- how far the scan has come -----

  /** The key is in the range of the scan but not in what is left of it. */
  ghost predicate Passed(k: Pubkey, lo: Bound, end: Bound, finished: bool) {
    finished || !InRange(k, lo, end)
  }

  /** The keys so far are passed, and all keys passed that are seen are among them. */
  ghost predicate Progress(keys: seq<Pubkey>, start: Bound, lo: Bound, end: Bound, finished: bool, unsorted: bool,
                           seen: Pubkey -> bool)
  {
    && KeysInOrder(keys, unsorted)
    && (forall k: Pubkey :: !finished && InRange(k, lo, end) ==> InRange(k, start, end))
    && (forall k: Pubkey :: k in keys ==> InRange(k, start, end) && Passed(k, lo, end, finished))
    && (forall k: Pubkey :: InRange(k, start, end) && seen(k) && Passed(k, lo, end, finished) ==> k in keys)
  }

  lemma SeenIsIndexed(w: World, t: nat, ancestors: set<Slot>, maxRoot: Option<Slot>, seen: Pubkey -> bool,
                      proper: (Pubkey, Entry) -> bool, lo: Bound, end: Bound, k: Pubkey)
    requires Steady(w, ancestors, maxRoot, seen, proper) && t < |w.maps|
    ensures seen(k) && InRange(k, lo, end) ==> k in w.maps[t].KeysIn(lo, end)
    ensures k in w.maps[t].KeysIn(lo, end) ==> InRange(k, lo, end)
  {
    assert SteadyAt(w, t, ancestors, maxRoot, k, seen, proper);
    w.maps[t].InKeysBelow(lo, end, |w.maps[t].bins|, k);
  }

  lemma NothingLeft(keys: seq<Pubkey>, start: Bound, lo: Bound, end: Bound, unsorted: bool, seen: Pubkey -> bool,
                    rest: set<Pubkey>)
    requires Progress(keys, start, lo, end, false, unsorted, seen) && rest == {}
    requires forall k: Pubkey :: seen(k) && InRange(k, lo, end) ==> k in rest
    ensures Progress(keys, start, lo, end, true, unsorted, seen)
  {
  }

  lemma AllTaken(start: Bound, end: Bound, seen: Pubkey -> bool, chunk: seq<Pubkey>, rest: set<Pubkey>, lo: Bound)
    requires Lists(chunk, rest)
    requires forall k: Pubkey :: seen(k) && InRange(k, start, end) ==> k in rest
    requires forall k: Pubkey :: k in rest ==> InRange(k, start, end)
    ensures Progress(chunk, start, lo, end, true, true, seen)
  {
    forall k: Pubkey ensures k in chunk <==> k in rest { assert k in chunk <==> k in Elements(chunk); }
  }

  lemma InChunk(chunk: seq<Pubkey>, rest: set<Pubkey>, last: Pubkey, k: Pubkey)
    requires LowPart(chunk, rest) && chunk != [] && last == chunk[|chunk| - 1]
    requires k in rest && k <= last
    ensures k in chunk
  {
    assert last in Elements(chunk);
    assert k in rest - Elements(chunk) || k in Elements(chunk);
  }

  lemma ChunkTaken(keys: seq<Pubkey>, start: Bound, lo: Bound, end: Bound, seen: Pubkey -> bool, chunk: seq<Pubkey>,
                   rest: set<Pubkey>, last: Pubkey)
    requires Progress(keys, start, lo, end, false, false, seen)
    requires LowPart(chunk, rest) && chunk != [] && last == chunk[|chunk| - 1]
    requires forall k: Pubkey :: seen(k) && InRange(k, lo, end) ==> k in rest
    requires forall k: Pubkey :: k in rest ==> InRange(k, lo, end)
    ensures Progress(keys + chunk, start, Excluded(last), end, false, false, seen)
  {
    assert last in Elements(chunk) && last in rest;
    forall k: Pubkey ensures k in chunk <==> k in Elements(chunk) {}
    forall i, j | 0 <= i < |keys| && 0 <= j < |chunk| ensures keys[i] < chunk[j] {
      assert chunk[j] in Elements(chunk) && InRange(chunk[j], lo, end);
      assert Passed(keys[i], lo, end, false);
    }
    forall k: Pubkey | InRange(k, start, end) && seen(k) && Passed(k, Excluded(last), end, false)
      ensures k in keys + chunk
    {
      if InRange(k, lo, end) { InChunk(chunk, rest, last, k); }
    }
    forall k: Pubkey | k in keys + chunk ensures InRange(k, start, end) && Passed(k, Excluded(last), end, false) {
      ChunkIsPassed(keys, start, lo, end, seen, chunk, last, rest, k);
    }
  }

  lemma ChunkIsPassed(keys: seq<Pubkey>, start: Bound, lo: Bound, end: Bound, seen: Pubkey -> bool, chunk: seq<Pubkey>,
                      last: Pubkey, rest: set<Pubkey>, k: Pubkey)
    requires Progress(keys, start, lo, end, false, false, seen)
    requires LowPart(chunk, rest) && chunk != [] && last == chunk[|chunk| - 1]
    requires forall x: Pubkey :: x in rest ==> InRange(x, lo, end)
    requires k in keys + chunk
    ensures InRange(k, start, end) && Passed(k, Excluded(last), end, false)
  {
    assert last in Elements(chunk) && InRange(last, lo, end);
    if k in chunk {
      assert k in Elements(chunk) && InRange(k, lo, end);
      var i :| 0 <= i < |chunk| && chunk[i] == k;
      assert k <= last;
    } else {
      assert Passed(k, lo, end, false);
    }
  }

  // ----- the scan -----

  /** Looks up the keys of a chunk, each at its own time. */
  method ScanChunkOverTime(w: World, ancestors: set<Slot>, maxRoot: Option<Slot>, chunk: seq<Pubkey>, clock: nat -> nat,
                           event: nat, calls0: seq<(Pubkey, Entry)>, ghost keys: seq<Pubkey>,
                           ghost seen: Pubkey -> bool, ghost proper: (Pubkey, Entry) -> bool)
    returns (calls: seq<(Pubkey, Entry)>)
    requires Steady(w, ancestors, maxRoot, seen, proper) && InTime(w, clock)
    requires CallsFor(calls0, keys, seen, proper)
    ensures CallsFor(calls, keys + chunk, seen, proper)
  {
    calls := calls0;
    assert keys + chunk[..0] == keys;
    for i := 0 to |chunk|
      invariant CallsFor(calls, keys + chunk[..i], seen, proper)
    {
      var t, k := clock(event + i), chunk[i];
      assert SteadyAt(w, t, ancestors, maxRoot, k, seen, proper);
      var found := LookupNow(w.maps[t], ancestors, w.roots[t], maxRoot, k);
      CallsForAppend(calls, keys + chunk[..i], k, found, seen, proper);
      assert keys + chunk[..i + 1] == keys + chunk[..i] + [k];
      if found.Some? { calls := calls + [(k, found.value)]; }
    }
    assert chunk[..|chunk|] == chunk;
  }

  method LookupNow(maps: Maps, ancestors: set<Slot>, roots: set<Slot>, maxRoot: Option<Slot>, k: Pubkey)
    returns (found: Option<Entry>)
    requires maps.Valid()
    ensures found == Find(maps, ancestors, roots, maxRoot, k)
  {
    if k !in maps.bins[maps.bin(k)] { return None; }
    var list := maps.bins[maps.bin(k)][k];
    var index := LatestSlot(Some(ancestors), list, maxRoot, roots);
    LatestIsLookup(list, ancestors, roots, maxRoot, index);
    found := if index.Some? then Some(list[index.value]) else None;
  }

  /** How far a lower bound is, so that chunks come to an end. */
  function Position(b: Bound): (p: nat)
    ensures p <= PUBKEY_SIZE
  {
    match b
    case Included(k) => k
    case Excluded(k) => k + 1
    case Unbounded => 0
  }

  /** The scan loop, with any times for its chunks and lookups. */
  method ScanOverTime(w: World, ancestors: set<Slot>, maxRoot: Option<Slot>, start: Bound, end: Bound, unsorted: bool,
                      clock: nat -> nat, ghost seen: Pubkey -> bool, ghost proper: (Pubkey, Entry) -> bool)
    returns (calls: seq<(Pubkey, Entry)>)
    requires Steady(w, ancestors, maxRoot, seen, proper) && InTime(w, clock)
    ensures forall k: Pubkey :: HasCall(calls, k) <==> InRange(k, start, end) && seen(k)
    ensures forall i :: 0 <= i < |calls| ==> proper(calls[i].0, calls[i].1)
    ensures CallsInOrder(calls, unsorted)
  {
    var iter := new AccountsIndexIterator(start, end, unsorted);
    calls := [];
    var event: nat := 0;
    ghost var keys: seq<Pubkey> := [];
    while true
      invariant fresh(iter) && iter.endBound == end && iter.collectAllUnsorted == unsorted
      invariant CallsFor(calls, keys, seen, proper)
      invariant Progress(keys, start, iter.startBound, end, iter.isFinished, unsorted, seen)
      invariant unsorted && !iter.isFinished ==> keys == [] && iter.startBound == start
      decreases if iter.isFinished then 0 else PUBKEY_SIZE + 1 - Position(iter.startBound)
    {
      var t := clock(event);
      var next := TakeChunk(iter, w, t, ancestors, maxRoot, start, end, keys, seen, proper);
      if next.None? { break; }
      calls := ScanChunkOverTime(w, ancestors, maxRoot, next.value, clock, event + 1, calls, keys, seen, proper);
      event := event + 1 + |next.value|;
      keys := keys + next.value;
    }
    Finished(calls, keys, start, iter.startBound, end, unsorted, seen, proper);
  }

  /** One chunk at one time. */
  method TakeChunk(iter: AccountsIndexIterator, w: World, t: nat, ghost ancestors: set<Slot>,
                   ghost maxRoot: Option<Slot>, ghost start: Bound, ghost end: Bound, ghost keys: seq<Pubkey>,
                   ghost seen: Pubkey -> bool, ghost proper: (Pubkey, Entry) -> bool)
    returns (next: Option<seq<Pubkey>>)
    requires Steady(w, ancestors, maxRoot, seen, proper) && t < |w.maps| && iter.endBound == end
    requires Progress(keys, start, iter.startBound, end, iter.isFinished, iter.collectAllUnsorted, seen)
    requires iter.collectAllUnsorted && !iter.isFinished ==> keys == [] && iter.startBound == start
    modifies iter
    ensures next.None? ==> iter.isFinished
    ensures var now := if next.Some? then keys + next.value else keys;
            Progress(now, start, iter.startBound, end, iter.isFinished, iter.collectAllUnsorted, seen)
    ensures next.Some? ==> !old(iter.isFinished) && (iter.collectAllUnsorted ==> iter.isFinished)
    ensures next.Some? && !iter.isFinished ==> Position(iter.startBound) > Position(old(iter.startBound))
  {
    ghost var lo := iter.startBound;
    ghost var rest := w.maps[t].KeysIn(lo, end);
    forall k: Pubkey
      ensures seen(k) && InRange(k, lo, end) ==> k in rest
      ensures k in rest ==> InRange(k, lo, end)
    {
      SeenIsIndexed(w, t, ancestors, maxRoot, seen, proper, lo, end, k);
    }
    next := iter.Next(w.maps[t]);
    if next.None? {
      if !old(iter.isFinished) { NothingLeft(keys, start, lo, end, iter.collectAllUnsorted, seen, rest); }
    } else if iter.collectAllUnsorted {
      assert keys + next.value == next.value;
      AllTaken(start, end, seen, next.value, rest, iter.startBound);
    } else {
      var last := next.value[|next.value| - 1];
      assert last in Elements(next.value);
      ChunkTaken(keys, start, lo, end, seen, next.value, rest, last);
    }
  }

  lemma Finished(calls: seq<(Pubkey, Entry)>, keys: seq<Pubkey>, start: Bound, lo: Bound, end: Bound, unsorted: bool,
                 seen: Pubkey -> bool, proper: (Pubkey, Entry) -> bool)
    requires CallsFor(calls, keys, seen, proper) && Progress(keys, start, lo, end, true, unsorted, seen)
    ensures forall k: Pubkey :: HasCall(calls, k) <==> InRange(k, start, end) && seen(k)
    ensures forall i :: 0 <= i < |calls| ==> proper(calls[i].0, calls[i].1)
    ensures CallsInOrder(calls, unsorted)
  {
    forall k: Pubkey
      ensures HasCall(calls, k) <==> InRange(k, start, end) && seen(k)
      ensures forall i :: 0 <= i < |calls| ==> proper(calls[i].0, calls[i].1)
    {
      CallsForKeys(calls, keys, seen, proper, k);
    }
    var zero: Pubkey := 0;
    CallsForKeys(calls, keys, seen, proper, zero);
    CallsForOrder(calls, keys, seen, proper, unsorted);
  }

  // ----- the scan and the steps of the index -----

  /** The maps of the index hold what the state holds. */
  ghost predicate Shows(maps: Maps, db: Db) {
    && maps.Valid()
    && (forall k: Pubkey :: maps.Has(k) <==> k in db.index)
    && forall k: Pubkey :: maps.Has(k) ==> maps.bins[maps.bin(k)][k] == ListOf(db, k)
  }

  ghost predicate ShowsAt(w: World, states: seq<Db>, i: nat, t: nat)
    requires t < |w.maps| == |w.roots|
  {
    i + t < |states| && Shows(w.maps[t], states[i + t]) && w.roots[t] == states[i + t].roots
  }

  /** The world is the index from state i to state j of a run, in which the scan is active and would
      return its results at the end. */
  ghost predicate ScanRuns(w: World, states: seq<Db>, steps: seq<Step>, id: ScanId, i: nat, j: nat) {
    && IsRun(states, steps) && states[0] == Init
    && i <= j < |states| && |w.maps| == |w.roots| == j - i + 1
    && (forall t :: i <= t <= j ==> id in states[t].scans)
    && ReturnsOk(states[j], id)
    && forall t :: 0 <= t < |w.maps| ==> ShowsAt(w, states, i, t)
  }

  /** The version that the scan saw first, or one to which it was moved while the scan ran. */
  ghost predicate IsPinned(steps: seq<Step>, i: nat, j: nat, k: Pubkey, first: Option<Entry>, e: Entry)
    requires i <= j <= |steps|
  {
    exists t :: i <= t <= j && AfterMoves(steps, i, t, k, first) == Some(e)
  }

  lemma PinnedAt(w: World, states: seq<Db>, steps: seq<Step>, id: ScanId, i: nat, j: nat, t: nat, k: Pubkey)
    requires ScanRuns(w, states, steps, id, i, j) && t < |w.maps|
    ensures var scan := states[i].scans[id];
            var found, first := FindAt(w, t, scan.ancestors, Some(scan.root), k), View(states[i], scan, k);
            && found == AfterMoves(steps, i, i + t, k, first)
            && found.Some? == first.Some?
  {
    assert ShowsAt(w, states, i, t);
    ScanSeesOneView(states, steps, id, i + t, j, k);
    ScanSeesOneView(states, steps, id, i, i + t, k);
  }

  lemma PinnedKeepsSlot(steps: seq<Step>, i: nat, j: nat, k: Pubkey, first: Option<Entry>, e: Entry)
    requires i <= j <= |steps| && IsPinned(steps, i, j, k, first, e)
    ensures SameSlot(Some(e), first)
    ensures (forall t :: i <= t < j ==> !Moves(steps[t], k, first)) ==> Some(e) == first
  {
    var t :| i <= t <= j && AfterMoves(steps, i, t, k, first) == Some(e);
    MovesKeepSlot(steps, i, t, k, first);
  }

  /** What a call says of the version pinned for its key. */
  ghost predicate CalledBack(states: seq<Db>, steps: seq<Step>, scan: Scan, i: nat, j: nat, k: Pubkey, e: Entry)
    requires i < |states| && i <= j <= |steps|
  {
    var first := View(states[i], scan, k);
    && IsPinned(steps, i, j, k, first, e)
    && SameSlot(Some(e), first)
    && ((forall t :: i <= t < j ==> !Moves(steps[t], k, first)) ==> Some(e) == first)
  }

  /** A scan whose bank is not removed calls back exactly the keys of its range that it saw when it
      started, each once, and with the version of the slot that it saw: whatever steps come between
      its chunks and between its lookups. */
  method CheckedScan(w: World, scan: Scan, start: Bound, end: Bound, unsorted: bool, clock: nat -> nat,
                     ghost states: seq<Db>, ghost steps: seq<Step>, ghost id: ScanId, ghost i: nat, ghost j: nat)
    returns (calls: seq<(Pubkey, Entry)>)
    requires ScanRuns(w, states, steps, id, i, j) && scan == states[i].scans[id] && InTime(w, clock)
    ensures forall k: Pubkey :: HasCall(calls, k) <==> InRange(k, start, end) && View(states[i], scan, k).Some?
    ensures forall n :: 0 <= n < |calls| ==>
              CalledBack(states, steps, scan, i, j, calls[n].0, calls[n].1)
    ensures CallsInOrder(calls, unsorted)
  {
    ghost var seen := (k: Pubkey) => View(states[i], scan, k).Some?;
    ghost var proper := (k: Pubkey, e: Entry) => CalledBack(states, steps, scan, i, j, k, e);
    forall t, k: Pubkey | 0 <= t < |w.maps|
      ensures SteadyAt(w, t, scan.ancestors, Some(scan.root), k, seen, proper)
    {
      PinnedAt(w, states, steps, id, i, j, t, k);
      var first := View(states[i], scan, k);
      if first.Some? {
        var e := FindAt(w, t, scan.ancestors, Some(scan.root), k).value;
        assert AfterMoves(steps, i, i + t, k, first) == Some(e);
        PinnedKeepsSlot(steps, i, j, k, first, e);
      }
    }
    forall t | 0 <= t < |w.maps| ensures w.maps[t].Valid() { assert ShowsAt(w, states, i, t); }
    calls := ScanOverTime(w, scan.ancestors, Some(scan.root), start, end, unsorted, clock, seen, proper);
  }
}
