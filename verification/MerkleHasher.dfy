/** The loops of the accounts hasher that compute the Merkle tree of hashes which are found in
    pieces, one or three levels in a pass, and their agreement with the specification. */
module MerkleHasher {
  import opened Arith
  import opened Common
  import opened MerkleTree

  const MERKLE_FANOUT: nat := 16

  /** `get(i)` is a piece of `hs` that starts at i: not empty, and as long as the source likes. */
  ghost predicate SliceSource<H>(get: nat -> seq<H>, hs: seq<H>) {
    forall i: nat :: i < |hs| ==> 0 < |get(i)| && get(i) <= hs[i..]
  }

  /** What is left of `data` from `dataIndex` on is the next piece of `hs` from i on. */
  ghost predicate Window<H>(data: seq<H>, dataIndex: nat, hs: seq<H>, i: nat)
    requires i <= |hs|
  {
    dataIndex < |data| ==> data[dataIndex..] <= hs[i..]
  }

  lemma WindowInFirstSlice<H>(get: nat -> seq<H>, hs: seq<H>, start: nat)
    requires SliceSource(get, hs)
    requires start <= |hs| && 0 < |hs|
    ensures Window(get(0), start, hs, start)
  {
    var data := get(0);
    assert data <= hs[0..];
    if start < |data| {
      assert data[start..] == hs[start..][..|data| - start];
    }
  }

  /** The next hash, fetching a new slice when the current one is exhausted. */
  method NextHash<H>(get: nat -> seq<H>, data: seq<H>, dataIndex: nat, i: nat, ghost hs: seq<H>)
    returns (h: H, data': seq<H>, dataIndex': nat)
    requires SliceSource(get, hs)
    requires i < |hs|
    requires Window(data, dataIndex, hs, i)
    ensures h == hs[i]
    ensures Window(data', dataIndex', hs, i + 1)
  {
    data', dataIndex' := data, dataIndex;
    if dataIndex >= |data| {
      data', dataIndex' := get(i), 0;
    }
    assert data'[dataIndex'..] <= hs[i..];
    h := data'[dataIndex'];
    assert h == data'[dataIndex'..][0] == hs[i..][0];
    ghost var rest := data'[dataIndex'..];
    assert data'[dataIndex' + 1..] == rest[1..] <= hs[i..][1..] == hs[i + 1..];
    dataIndex' := dataIndex' + 1;
  }

  /** One group of at most fanout hashes. */
  method HashOneLevelChunk<H>(hash: seq<H> -> H, get: nat -> seq<H>, data: seq<H>,
                              start: nat, end: nat, ghost hs: seq<H>) returns (h: H)
    requires SliceSource(get, hs)
    requires start <= end <= |hs|
    requires Window(data, start, hs, start)
    ensures h == hash(hs[start..end])
  {
    var data, dataIndex := data, start;
    var hasher: seq<H> := [];
    for i := start to end
      invariant Window(data, dataIndex, hs, i)
      invariant hasher == hs[start..i]
    {
      var item;
      item, data, dataIndex := NextHash(get, data, dataIndex, i, hs);
      hasher := hasher + [item];
    }
    h := hash(hasher);
  }

  /** Extending a level by one group. */
  lemma LevelStep<H>(hash: seq<H> -> H, hs: seq<H>, fanout: nat, lo: nat, mid: nat, hi: nat, m: nat)
    requires fanout >= 1
    requires lo <= mid < hi <= |hs|
    requires mid - lo == m * fanout && hi - mid <= fanout
    ensures OneLevel(hash, hs[lo..hi], fanout) == OneLevel(hash, hs[lo..mid], fanout) + [hash(hs[mid..hi])]
  {
    assert hs[lo..hi] == hs[lo..mid] + hs[mid..hi];
    OneLevelSplit(hash, hs[lo..mid], hs[mid..hi], fanout, m);
  }

  /** Extending two levels by one group of groups. */
  lemma TwoLevelStep<H>(hash: seq<H> -> H, hs: seq<H>, fanout: nat, lo: nat, mid: nat, hi: nat, m: nat)
    requires fanout >= 1
    requires lo <= mid < hi <= |hs|
    requires mid - lo == m * (fanout * fanout) && hi - mid <= fanout * fanout
    ensures OneLevel(hash, OneLevel(hash, hs[lo..hi], fanout), fanout)
         == OneLevel(hash, OneLevel(hash, hs[lo..mid], fanout), fanout) + [hash(OneLevel(hash, hs[mid..hi], fanout))]
  {
    assert hs[lo..hi] == hs[lo..mid] + hs[mid..hi];
    assert m * (fanout * fanout) == m * fanout * fanout;
    OneLevelSplit(hash, hs[lo..mid], hs[mid..hi], fanout, m * fanout);
    OneLevelCount(hash, hs[lo..mid], fanout, m * fanout);
    OneLevelCount(hash, hs[mid..hi], fanout, fanout);
    OneLevelLength(hash, hs[mid..hi], fanout);
    OneLevelSplit(hash, OneLevel(hash, hs[lo..mid], fanout), OneLevel(hash, hs[mid..hi], fanout), fanout, m);
  }

  /** The middle loop: up to fanout groups of up to fanout hashes, from i on. */
  method HashGroups<H>(hash: seq<H> -> H, get: nat -> seq<H>, data0: seq<H>, dataIndex0: nat, i0: nat, end: nat,
                       fanout: nat, ghost hs: seq<H>)
    returns (hasherJ: seq<H>, i: nat, data: seq<H>, dataIndex: nat)
    requires fanout >= 1
    requires SliceSource(get, hs)
    requires i0 < end <= |hs|
    requires Window(data0, dataIndex0, hs, i0)
    ensures i0 < i <= end && Window(data, dataIndex, hs, i)
    ensures i == Min(end, i0 + fanout * fanout)
    ensures hasherJ == OneLevel(hash, hs[i0..i], fanout)
  {
    hasherJ, i, data, dataIndex := [], i0, data0, dataIndex0;
    MulGap(1, fanout, fanout);
    var j := 0;
    while j < fanout
      invariant 0 <= j <= fanout
      invariant i == i0 + j * fanout
      invariant j < fanout ==> i < end
      invariant j > 0 ==> i0 < i
      invariant i <= end
      invariant Window(data, dataIndex, hs, i)
      invariant hasherJ == OneLevel(hash, hs[i0..i], fanout)
    {
      var count := Min(end - i, fanout);
      var hasherK: seq<H> := [];
      ghost var i1 := i;
      for k := 0 to count
        invariant i == i1 + k && i1 + count <= end
        invariant Window(data, dataIndex, hs, i)
        invariant hasherK == hs[i1..i]
      {
        var item;
        item, data, dataIndex := NextHash(get, data, dataIndex, i, hs);
        hasherK := hasherK + [item];
        i := i + 1;
      }
      LevelStep(hash, hs, fanout, i0, i1, i, j);
      hasherJ := hasherJ + [hash(hasherK)];
      MulGap(j + 1, fanout, fanout);
      assert (j + 1) * fanout == j * fanout + fanout;
      if i >= end { break; }
      j := j + 1;
    }
  }

  /** Three levels in one pass over a chunk: hashes into groups, groups into groups of groups. */
  method HashThreeLevelChunk<H>(hash: seq<H> -> H, get: nat -> seq<H>, data: seq<H>,
                                start: nat, end: nat, fanout: nat, ghost hs: seq<H>) returns (h: H)
    requires fanout >= 1
    requires SliceSource(get, hs)
    requires start < end <= |hs|
    requires end - start <= fanout * fanout * fanout
    requires Window(data, start, hs, start)
    ensures Levels(hash, hs[start..end], fanout, 3) == [h]
  {
    var data, dataIndex := data, start;
    var hasher: seq<H> := [];
    var i := start;
    ghost var groups, square := 0, fanout * fanout;
    while i < end
      invariant start <= i <= end
      invariant i < end ==> i - start == groups * square
      invariant Window(data, dataIndex, hs, i)
      invariant hasher == OneLevel(hash, OneLevel(hash, hs[start..i], fanout), fanout)
    {
      ghost var i0 := i;
      var hasherJ;
      hasherJ, i, data, dataIndex := HashGroups(hash, get, data, dataIndex, i, end, fanout, hs);
      TwoLevelStep(hash, hs, fanout, start, i0, i, groups);
      hasher := hasher + [hash(hasherJ)];
      assert (groups + 1) * square == groups * square + square;
      groups := groups + 1;
    }
    ThreeLevelsOfChunk(hash, hs[start..end], fanout);
    h := hash(hasher);
  }

  datatype Pass = Pass(hashesPerChunk: nat, levelsHashed: nat, threeLevel: bool)

  /** Whether a pass does one or three levels. */
  function CalculateThreeLevelChunks(totalHashes: nat, fanout: nat, maxLevelsPerPass: Option<nat>,
                                     specificLevelCount: Option<nat>): (r: Pass)
    ensures r.levelsHashed == 1 || r.levelsHashed == 3
    ensures r.threeLevel <==> r.levelsHashed == 3
    ensures r.threeLevel ==> totalHashes >= fanout * fanout * fanout * fanout
    ensures maxLevelsPerPass.Some? ==> r.levelsHashed <= 1 || maxLevelsPerPass.value >= 3
    ensures totalHashes >= fanout * fanout * fanout * fanout && maxLevelsPerPass.None? && specificLevelCount.None? ==>
              r.threeLevel
    ensures specificLevelCount.Some? && specificLevelCount.value >= 1 ==> r.levelsHashed <= specificLevelCount.value
    ensures r.hashesPerChunk == if r.threeLevel then fanout * fanout * fanout else fanout
  {
    var target := fanout * fanout * fanout;
    var threshold := target * fanout;
    var enough := (maxLevelsPerPass.None? || maxLevelsPerPass.value >= 3) && totalHashes >= threshold;
    var threeLevel := enough && (specificLevelCount.None? || specificLevelCount.value >= 3);
    if threeLevel then Pass(target, 3, true) else Pass(fanout, 1, false)
  }

  /** What one pass leaves of `hs` when all chunks are done. */
  ghost function AfterPass<H>(hash: seq<H> -> H, hs: seq<H>, fanout: nat, threeLevel: bool): (r: seq<H>)
    requires fanout >= 1
  {
    Levels(hash, hs, fanout, if threeLevel then 3 else 1)
  }

  lemma AfterPassStep<H>(hash: seq<H> -> H, hs: seq<H>, fanout: nat, threeLevel: bool, chunk: nat, mid: nat, hi: nat,
                         h: H)
    requires fanout >= 1
    requires mid < hi <= |hs|
    requires mid == chunk * (if threeLevel then fanout * fanout * fanout else fanout)
    requires hi - mid <= (if threeLevel then fanout * fanout * fanout else fanout)
    requires AfterPass(hash, hs[mid..hi], fanout, threeLevel) == [h]
    ensures AfterPass(hash, hs[..hi], fanout, threeLevel) == AfterPass(hash, hs[..mid], fanout, threeLevel) + [h]
  {
    assert hs[..hi] == hs[..mid] + hs[mid..hi];
    if threeLevel {
      assert chunk * (fanout * fanout * fanout) == chunk * fanout * fanout * fanout;
      ThreeLevelsSplit(hash, hs[..mid], hs[mid..hi], fanout, chunk);
    } else {
      OneLevelSplit(hash, hs[..mid], hs[mid..hi], fanout, chunk);
      OneLevelIsLevels(hash, hs[..mid], fanout);
      OneLevelIsLevels(hash, hs[mid..hi], fanout);
      OneLevelIsLevels(hash, hs[..hi], fanout);
    }
  }

  lemma OneLevelIsLevels<H>(hash: seq<H> -> H, hs: seq<H>, fanout: nat)
    requires fanout >= 1
    ensures Levels(hash, hs, fanout, 1) == OneLevel(hash, hs, fanout)
  {
    assert Levels(hash, OneLevel(hash, hs, fanout), fanout, 0) == OneLevel(hash, hs, fanout);
  }

  /** Where chunk i starts and ends, when there are ceil(total / per) chunks. */
  lemma ChunkBounds(total: nat, per: nat, chunks: nat, i: nat)
    requires total <= chunks * per < total + per
    requires i < chunks
    ensures i * per < total
    ensures (i + 1) * per == i * per + per
  {
    MulGap(i, chunks - 1, per);
    assert (chunks - 1) * per == chunks * per - per;
  }

  /** All chunks of one pass. */
  method HashChunks<H>(hash: seq<H> -> H, total: nat, fanout: nat, pass: Pass, get: nat -> seq<H>, ghost hs: seq<H>)
    returns (result: seq<H>)
    requires fanout >= 1
    requires total == |hs| && total > 0
    requires SliceSource(get, hs)
    requires pass.hashesPerChunk == if pass.threeLevel then fanout * fanout * fanout else fanout
    ensures result == AfterPass(hash, hs, fanout, pass.threeLevel)
  {
    var per := pass.hashesPerChunk;
    MulGap(1, fanout, fanout);
    MulGap(1, fanout * fanout, fanout);
    var chunks := DivCeil(total, per);
    var data := get(0);
    result := [];
    AfterPassOfNothing(hash, hs, fanout, pass.threeLevel);
    for i := 0 to chunks
      invariant 0 <= i * per
      invariant result == AfterPass(hash, hs[..Min(i * per, total)], fanout, pass.threeLevel)
    {
      ChunkBounds(total, per, chunks, i);
      var start := i * per;
      var end := Min(start + per, total);
      WindowInFirstSlice(get, hs, start);
      var h;
      if !pass.threeLevel {
        h := HashOneLevelChunk(hash, get, data, start, end, hs);
        OneLevelIsLevels(hash, hs[start..end], fanout);
      } else {
        h := HashThreeLevelChunk(hash, get, data, start, end, fanout, hs);
      }
      AfterPassStep(hash, hs, fanout, pass.threeLevel, i, start, end, h);
      result := result + [h];
    }
    assert hs[..total] == hs;
  }

  lemma AfterPassOfNothing<H>(hash: seq<H> -> H, hs: seq<H>, fanout: nat, threeLevel: bool)
    requires fanout >= 1
    ensures AfterPass(hash, hs[..0], fanout, threeLevel) == []
  {
    assert hs[..0] == [];
    ThreeLevelsUnfold(hash, hs[..0], fanout);
    OneLevelIsLevels(hash, hs[..0], fanout);
  }

  /** One level of a vector, as the naive computation does it. */
  method HashVector<T, H>(hash: seq<H> -> H, hashes: seq<T>, fanout: nat, extractor: T -> H) returns (result: seq<H>)
    requires fanout >= 1
    ensures result == OneLevel(hash, Extract(hashes, extractor), fanout)
  {
    ghost var hs := Extract(hashes, extractor);
    var chunks := DivCeil(|hashes|, fanout);
    result := [];
    assert hs[..0] == [];
    for i := 0 to chunks
      invariant 0 <= i * fanout
      invariant result == OneLevel(hash, hs[..Min(i * fanout, |hs|)], fanout)
    {
      ChunkBounds(|hashes|, fanout, chunks, i);
      var start := i * fanout;
      var end := Min(start + fanout, |hashes|);
      var hasher: seq<H> := [];
      for j := start to end
        invariant hasher == hs[start..j]
      {
        hasher := hasher + [extractor(hashes[j])];
      }
      LevelStep(hash, hs, fanout, 0, start, end, i);
      assert hs[0..start] == hs[..start] && hs[0..end] == hs[..end];
      result := result + [hash(hasher)];
    }
    assert hs[..|hs|] == hs;
  }

  /** The naive computation over a vector, level after level. */
  method ComputeMerkleRootLoop<T, H>(hash: seq<H> -> H, hashes: seq<T>, fanout: nat, extractor: T -> H)
    returns (root: H)
    requires fanout >= 2
    ensures root == Root(hash, Extract(hashes, extractor), fanout)
    decreases |hashes|
  {
    if |hashes| == 0 { return hash([]); }
    var result := HashVector(hash, hashes, fanout, extractor);
    OneLevelShrinks(hash, Extract(hashes, extractor), fanout);
    if |result| == 1 {
      root := result[0];
    } else {
      root := ComputeMerkleRootLoop(hash, result, fanout, (h: H) => h);
      assert Extract(result, (h: H) => h) == result;
    }
  }

  function Extract<T, H>(items: seq<T>, extractor: T -> H): (r: seq<H>)
    ensures |r| == |items| && forall i :: 0 <= i < |r| ==> r[i] == extractor(items[i])
  {
    seq(|items|, i requires 0 <= i < |items| => extractor(items[i]))
  }

  /** The fast computation. Without a level count it returns the naive root; with a level count k
      it returns exactly k levels. */
  method ComputeMerkleRootFromSlices<H>(hash: seq<H> -> H, defaultHash: H, total: nat, fanout: nat,
                                        maxLevelsPerPass: Option<nat>, get: nat -> seq<H>,
                                        specificLevelCount: Option<nat>, ghost hs: seq<H>)
    returns (root: H, levels: seq<H>)
    requires fanout >= 2
    requires total == |hs|
    requires SliceSource(get, hs)
    requires total > 0 && specificLevelCount.Some? ==> specificLevelCount.value >= 1
    ensures specificLevelCount.None? ==> root == Root(hash, hs, fanout) && levels == []
    ensures specificLevelCount.Some? && total > 0
        ==> root == defaultHash && levels == Levels(hash, hs, fanout, specificLevelCount.value)
    ensures total == 0 ==> root == hash([]) && levels == []
    decreases if specificLevelCount.Some? then specificLevelCount.value else 0
  {
    if total == 0 { return hash([]), []; }
    var pass := CalculateThreeLevelChunks(total, fanout, maxLevelsPerPass, specificLevelCount);
    var result := HashChunks(hash, total, fanout, pass, get, hs);
    OneLevelIsLevels(hash, hs, fanout);
    if specificLevelCount.Some? {
      var left := specificLevelCount.value - pass.levelsHashed;
      LevelsAdd(hash, hs, fanout, pass.levelsHashed, left);
      if left == 0 {
        root, levels := defaultHash, result;
      } else {
        LevelsNotEmpty(hash, hs, fanout, pass.levelsHashed);
        var slices := (start: nat) => if start <= |result| then result[start..] else [];
        root, levels := ComputeMerkleRootFromSlices(
          hash, defaultHash, |result|, fanout, maxLevelsPerPass, slices, Some(left), result);
      }
    } else {
      if pass.threeLevel { RootOfThreeLevels(hash, hs, fanout); }
      if |result| == 1 {
        root := result[0];
      } else {
        root := ComputeMerkleRootLoop(hash, result, fanout, (h: H) => h);
        assert Extract(result, (h: H) => h) == result;
      }
      levels := [];
    }
  }

  lemma {:induction false} LevelsNotEmpty<H>(hash: seq<H> -> H, hs: seq<H>, fanout: nat, k: nat)
    requires fanout >= 2
    requires hs != []
    ensures Levels(hash, hs, fanout, k) != []
    decreases k
  {
    if k > 0 {
      OneLevelShrinks(hash, hs, fanout);
      LevelsNotEmpty(hash, OneLevel(hash, hs, fanout), fanout, k - 1);
    }
  }
}
