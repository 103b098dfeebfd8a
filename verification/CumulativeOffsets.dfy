/** Hashes kept in several vectors, addressed by one overall index. */
module CumulativeOffsets {
  import opened Common
  import opened Search
  import MerkleHasher

  /** Data source `index` holds the hashes from overall index `startOffset` on. */
  datatype CumulativeOffset = CumulativeOffset(index: nat, startOffset: nat)

  datatype Offsets = Offsets(cumulativeOffsets: seq<CumulativeOffset>, totalCount: nat)

  function Flatten<T>(raw: seq<seq<T>>): (r: seq<T>) {
    if raw == [] then [] else Flatten(raw[..|raw| - 1]) + raw[|raw| - 1]
  }

  lemma {:induction false} FlattenSplit<T>(a: seq<seq<T>>, b: seq<seq<T>>)
    ensures Flatten(a + b) == Flatten(a) + Flatten(b)
    decreases |b|
  {
    if b == [] {
      assert a + b == a;
    } else {
      var n := |b| - 1;
      assert (a + b)[..|a + b| - 1] == a + b[..n];
      FlattenSplit(a, b[..n]);
    }
  }

  lemma FlattenAppend<T>(raw: seq<seq<T>>, last: seq<T>)
    ensures Flatten(raw + [last]) == Flatten(raw) + last
  {
    assert (raw + [last])[..|raw|] == raw;
  }

  lemma FlattenMiddle<T>(a: seq<seq<T>>, b: seq<T>, c: seq<seq<T>>)
    ensures Flatten(a + [b] + c) == Flatten(a) + b + Flatten(c)
  {
    FlattenSplit(a + [b], c);
    FlattenAppend(a, b);
  }

  lemma FlattenAt<T>(raw: seq<seq<T>>, i: nat, before: seq<seq<T>>, at: seq<T>)
    requires i < |raw| && before == raw[..i] && at == raw[i]
    ensures |Flatten(before)| + |at| <= |Flatten(raw)|
    ensures Flatten(raw)[|Flatten(before)|..|Flatten(before)| + |at|] == at
  {
    var after := raw[i + 1..];
    assert raw == before + [at] + after;
    FlattenMiddle(before, at, after);
  }

  /** One entry for each data source that is not empty, in order. */
  function OffsetsOf<T>(raw: seq<seq<T>>): (r: seq<CumulativeOffset>) {
    if raw == [] then []
    else
      var n := |raw| - 1;
      OffsetsOf(raw[..n]) + if raw[n] == [] then [] else [CumulativeOffset(n, |Flatten(raw[..n])|)]
  }

  predicate Describes<T>(co: Offsets, raw: seq<seq<T>>) {
    co == Offsets(OffsetsOf(raw), |Flatten(raw)|)
  }

  /** Entry j starts where the sources before it end, and ends where entry j + 1 starts. */
  lemma {:induction false} EntryFacts<T>(raw: seq<seq<T>>, j: nat)
    requires j < |OffsetsOf(raw)|
    ensures var o := OffsetsOf(raw)[j];
            && o.index < |raw| && raw[o.index] != []
            && o.startOffset == |Flatten(raw[..o.index])|
            && o.startOffset + |raw[o.index]|
               == if j + 1 < |OffsetsOf(raw)| then OffsetsOf(raw)[j + 1].startOffset else |Flatten(raw)|
    decreases |raw|
  {
    var n := |raw| - 1;
    if j < |OffsetsOf(raw[..n])| {
      EntryFacts(raw[..n], j);
      var o := OffsetsOf(raw)[j];
      assert raw[..n][..o.index] == raw[..o.index];
    }
  }

  lemma {:induction false} StartsAscend<T>(raw: seq<seq<T>>, i: nat, j: nat)
    requires i < j < |OffsetsOf(raw)|
    ensures OffsetsOf(raw)[i].startOffset < OffsetsOf(raw)[j].startOffset
    decreases j - i
  {
    EntryFacts(raw, j - 1);
    if i < j - 1 { StartsAscend(raw, i, j - 1); }
  }

  lemma {:induction false} FirstStart<T>(raw: seq<seq<T>>)
    ensures OffsetsOf(raw) == [] ==> Flatten(raw) == []
    ensures OffsetsOf(raw) != [] ==> OffsetsOf(raw)[0].startOffset == 0
    decreases |raw|
  {
    if raw != [] { FirstStart(raw[..|raw| - 1]); }
  }

  /** Builds the offsets from the lengths of the data sources, skipping empty ones. */
  method New<T>(raw: seq<seq<T>>) returns (co: Offsets)
    ensures Describes(co, raw)
  {
    var offsets: seq<CumulativeOffset> := [];
    var totalCount := 0;
    for i := 0 to |raw|
      invariant offsets == OffsetsOf(raw[..i])
      invariant totalCount == |Flatten(raw[..i])|
    {
      var len := |raw[i]|;
      assert raw[..i + 1][..i] == raw[..i];
      if len > 0 {
        offsets := offsets + [CumulativeOffset(i, totalCount)];
        totalCount := totalCount + len;
      }
    }
    assert raw[..|raw|] == raw;
    co := Offsets(offsets, totalCount);
  }

  /** The data source that contains overall index `start`. */
  function FindIndex<T>(co: Offsets, raw: seq<seq<T>>, start: nat): (r: nat)
    requires Describes(co, raw)
    requires start < co.totalCount
    ensures r < |co.cumulativeOffsets|
    ensures var o := co.cumulativeOffsets[r];
            o.index < |raw| && o.startOffset <= start < o.startOffset + |raw[o.index]|
  {
    var cmp := (o: CumulativeOffset) => o.startOffset - start;
    assert Ordered(co.cumulativeOffsets, cmp) by { OrderedOffsets(raw, start); }
    FirstStart(raw);
    var r := match BinarySearchBy(co.cumulativeOffsets, cmp)
      case Ok(index) => index
      case Err(index) =>
        assert cmp(co.cumulativeOffsets[0]) <= 0;
        index - 1;
    EntryFacts(raw, r);
    r
  }

  lemma OrderedOffsets<T>(raw: seq<seq<T>>, start: nat)
    ensures Ordered(OffsetsOf(raw), (o: CumulativeOffset) => o.startOffset - start)
  {
    forall i, j | 0 <= i < j < |OffsetsOf(raw)|
      ensures OffsetsOf(raw)[i].startOffset < OffsetsOf(raw)[j].startOffset
    {
      StartsAscend(raw, i, j);
    }
  }

  lemma SliceTail<T>(all: seq<T>, from: nat, piece: seq<T>, start: nat)
    requires from + |piece| <= |all| && all[from..from + |piece|] == piece && from <= start < from + |piece|
    ensures piece[start - from..] <= all[start..]
  {
    var r := piece[start - from..];
    assert r == all[start..from + |piece|] == all[start..][..|r|];
  }

  /** The biggest slice that starts at overall index `start`. */
  function GetSlice<T>(co: Offsets, raw: seq<seq<T>>, start: nat): (r: seq<T>)
    requires Describes(co, raw)
    requires start < co.totalCount
    ensures 0 < |r| && r <= Flatten(raw)[start..]
  {
    var j := FindIndex(co, raw, start);
    var o := co.cumulativeOffsets[j];
    EntryFacts(raw, j);
    FlattenAt(raw, o.index, raw[..o.index], raw[o.index]);
    SliceTail(Flatten(raw), o.startOffset, raw[o.index], start);
    raw[o.index][start - o.startOffset..]
  }

  /** The closure given to the Merkle computation; there is nothing to give beyond the end. */
  function SliceAt<T>(co: Offsets, raw: seq<seq<T>>, start: nat): (r: seq<T>)
    ensures Describes(co, raw) && start < |Flatten(raw)| ==> 0 < |r| && r <= Flatten(raw)[start..]
  {
    if Describes(co, raw) && start < co.totalCount then GetSlice(co, raw, start) else []
  }

  /** The pieces are a slice source for their concatenation. */
  lemma SlicesOfOffsets<T>(co: Offsets, raw: seq<seq<T>>)
    requires Describes(co, raw)
    ensures MerkleHasher.SliceSource((start: nat) => SliceAt(co, raw, start), Flatten(raw))
  {
    forall i: nat | i < |Flatten(raw)|
      ensures 0 < |SliceAt(co, raw, i)| && SliceAt(co, raw, i) <= Flatten(raw)[i..]
    {
      var r := GetSlice(co, raw, i);
    }
  }

  /** The root of hashes kept in several vectors is the naive root of their concatenation. */
  method CalculateHash<H>(hash: seq<H> -> H, defaultHash: H, hashes: seq<seq<H>>) returns (root: H, hashTotal: nat)
    ensures hashTotal == |Flatten(hashes)|
    ensures root == MerkleHasher.MerkleTree.Root(hash, Flatten(hashes), MerkleHasher.MERKLE_FANOUT)
    ensures hashTotal <= 16 ==> root == hash(Flatten(hashes))
    ensures hashTotal == 17 ==> root == hash([hash(Flatten(hashes)[..16]), hash(Flatten(hashes)[16..])])
  {
    var co := New(hashes);
    hashTotal := co.totalCount;
    SlicesOfOffsets(co, hashes);
    var levels;
    root, levels := MerkleHasher.ComputeMerkleRootFromSlices(
      hash, defaultHash, hashTotal, MerkleHasher.MERKLE_FANOUT, None,
      (start: nat) => SliceAt(co, hashes, start), None, Flatten(hashes));
    if hashTotal <= 16 {
      MerkleHasher.MerkleTree.RootOfOneGroup(hash, Flatten(hashes), MerkleHasher.MERKLE_FANOUT);
    } else if hashTotal == 17 {
      MerkleHasher.MerkleTree.RootOfTwoGroups(hash, Flatten(hashes), MerkleHasher.MERKLE_FANOUT);
    }
  }
}
