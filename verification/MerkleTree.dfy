/** The accounts hasher's Merkle tree.

    A level hashes consecutive groups of `fanout` hashes. The root is what is left when a level
    has one hash. `Hasher` is a parameter: it collects the hashes fed to it, and its result is
    `hash` of what it collected, for any function `hash`. */
module MerkleTree {
  import opened Arith
  import opened Common

  // ----- the specification: levels and the root -----

  /** One level: each group of `fanout` hashes becomes one hash; the last group may be short. */
  function OneLevel<H>(hash: seq<H> -> H, hs: seq<H>, fanout: nat): (r: seq<H>)
    requires fanout >= 1
    decreases |hs|
  {
    if hs == [] then []
    else if |hs| <= fanout then [hash(hs)]
    else [hash(hs[..fanout])] + OneLevel(hash, hs[fanout..], fanout)
  }

  /** `k` levels, one after the other. */
  function Levels<H>(hash: seq<H> -> H, hs: seq<H>, fanout: nat, k: nat): (r: seq<H>)
    requires fanout >= 1
    decreases k
  {
    if k == 0 then hs else Levels(hash, OneLevel(hash, hs, fanout), fanout, k - 1)
  }

  /** The root: levels until a single hash is left. */
  function Root<H>(hash: seq<H> -> H, hs: seq<H>, fanout: nat): (r: H)
    requires fanout >= 2
    decreases |hs|
  {
    if hs == [] then hash([])
    else
      var up := OneLevel(hash, hs, fanout);
      OneLevelShrinks(hash, hs, fanout);
      if |up| == 1 then up[0] else Root(hash, up, fanout)
  }

  // ----- lengths -----

  /** accounts_hash.rs `div_ceil`, characterised as a ceiling. */
  function DivCeil(x: nat, y: nat): (r: nat)
    requires y > 0
    ensures x <= r * y < x + y
  {
    var q := x / y;
    assert x == q * y + x % y;
    if x % y != 0 then
      assert (q + 1) * y == q * y + y;
      q + 1
    else q
  }

  lemma CeilUnique(x: nat, y: nat, a: nat, b: nat)
    requires y > 0
    requires x <= a * y < x + y && x <= b * y < x + y
    ensures a == b
  {
    MulGap(a, b, y);
    MulGap(b, a, y);
  }

  lemma {:induction false} OneLevelLength<H>(hash: seq<H> -> H, hs: seq<H>, fanout: nat)
    requires fanout >= 1
    ensures |hs| <= |OneLevel(hash, hs, fanout)| * fanout < |hs| + fanout
    decreases |hs|
  {
    if |hs| > fanout {
      OneLevelLength(hash, hs[fanout..], fanout);
      var rest := |OneLevel(hash, hs[fanout..], fanout)|;
      assert (rest + 1) * fanout == rest * fanout + fanout;
    }
  }

  /** A level of at most (exactly, at least) m * fanout hashes has at most (exactly, at least) m. */
  lemma OneLevelCount<H>(hash: seq<H> -> H, hs: seq<H>, fanout: nat, m: nat)
    requires fanout >= 1
    ensures |hs| <= m * fanout ==> |OneLevel(hash, hs, fanout)| <= m
    ensures |hs| == m * fanout ==> |OneLevel(hash, hs, fanout)| == m
    ensures |hs| >= m * fanout ==> |OneLevel(hash, hs, fanout)| >= m
  {
    OneLevelLength(hash, hs, fanout);
    var n := |OneLevel(hash, hs, fanout)|;
    MulGap(n, m, fanout);
    MulGap(m, n, fanout);
  }

  /** Every level is shorter, unless there is at most one hash: why the root recursion stops. */
  lemma OneLevelShrinks<H>(hash: seq<H> -> H, hs: seq<H>, fanout: nat)
    requires fanout >= 2
    ensures hs != [] ==> 1 <= |OneLevel(hash, hs, fanout)| <= |hs|
    ensures |hs| >= 2 ==> |OneLevel(hash, hs, fanout)| < |hs|
    ensures |OneLevel(hash, hs, fanout)| <= 1 <==> |hs| <= fanout
  {
    OneLevelLength(hash, hs, fanout);
    var n := |OneLevel(hash, hs, fanout)|;
    MulGap(2, fanout, n);
    MulGap(n, 1, fanout);
    MulGap(1, n, fanout);
    MulGap(2, n, fanout);
    assert n * fanout == fanout * n;
  }

  // ----- a level of an aligned concatenation is the concatenation of the levels -----

  lemma {:induction false} OneLevelSplit<H>(hash: seq<H> -> H, a: seq<H>, b: seq<H>, fanout: nat, m: nat)
    requires fanout >= 1
    requires |a| == m * fanout
    ensures OneLevel(hash, a + b, fanout) == OneLevel(hash, a, fanout) + OneLevel(hash, b, fanout)
    decreases m
  {
    if m == 0 {
      assert a + b == b;
    } else {
      assert m * fanout == (m - 1) * fanout + fanout;
      MulNonNegative(m - 1, fanout);
      assert (a + b)[..fanout] == a[..fanout];
      assert (a + b)[fanout..] == a[fanout..] + b;
      OneLevelSplit(hash, a[fanout..], b, fanout, m - 1);
      if |a| == fanout {
        assert a[..fanout] == a && a[fanout..] == [];
        if b == [] { assert a + b == a; }
      }
    }
  }

  lemma ThreeLevelsSplit<H>(hash: seq<H> -> H, a: seq<H>, b: seq<H>, fanout: nat, m: nat)
    requires fanout >= 1
    requires |a| == m * fanout * fanout * fanout
    ensures Levels(hash, a + b, fanout, 3) == Levels(hash, a, fanout, 3) + Levels(hash, b, fanout, 3)
  {
    var m1 := m * fanout;
    var m2 := m1 * fanout;
    var a1, b1 := OneLevel(hash, a, fanout), OneLevel(hash, b, fanout);
    OneLevelSplit(hash, a, b, fanout, m2);
    OneLevelCount(hash, a, fanout, m2);
    OneLevelSplit(hash, a1, b1, fanout, m1);
    OneLevelCount(hash, a1, fanout, m1);
    OneLevelSplit(hash, OneLevel(hash, a1, fanout), OneLevel(hash, b1, fanout), fanout, m);
    ThreeLevelsUnfold(hash, a + b, fanout);
    ThreeLevelsUnfold(hash, a, fanout);
    ThreeLevelsUnfold(hash, b, fanout);
  }

  lemma ThreeLevelsUnfold<H>(hash: seq<H> -> H, hs: seq<H>, fanout: nat)
    requires fanout >= 1
    ensures Levels(hash, hs, fanout, 3)
         == OneLevel(hash, OneLevel(hash, OneLevel(hash, hs, fanout), fanout), fanout)
  {
    var h1 := OneLevel(hash, hs, fanout);
    var h2 := OneLevel(hash, h1, fanout);
    var h3 := OneLevel(hash, h2, fanout);
    assert Levels(hash, h3, fanout, 0) == h3;
    assert Levels(hash, h2, fanout, 1) == h3;
    assert Levels(hash, h1, fanout, 2) == h3;
  }

  lemma {:induction false} LevelsAdd<H>(hash: seq<H> -> H, hs: seq<H>, fanout: nat, j: nat, k: nat)
    requires fanout >= 1
    ensures Levels(hash, hs, fanout, j + k) == Levels(hash, Levels(hash, hs, fanout, j), fanout, k)
    decreases j
  {
    if j > 0 { LevelsAdd(hash, OneLevel(hash, hs, fanout), fanout, j - 1, k); }
  }

  /** A chunk of at most fanout^3 hashes has a one-hash third level. */
  lemma ThreeLevelsOfChunk<H>(hash: seq<H> -> H, c: seq<H>, fanout: nat)
    requires fanout >= 1
    requires 0 < |c| <= fanout * fanout * fanout
    ensures Levels(hash, c, fanout, 3) == [hash(OneLevel(hash, OneLevel(hash, c, fanout), fanout))]
  {
    MulNonNegative(fanout, fanout);
    ChunkLevels(hash, c, fanout, fanout * fanout, fanout);
  }

  lemma ChunkLevels<H>(hash: seq<H> -> H, c: seq<H>, fanout: nat, m1: nat, m2: nat)
    requires fanout >= 1 && 0 < |c| <= m1 * fanout && m1 <= m2 * fanout && m2 <= fanout
    ensures Levels(hash, c, fanout, 3) == [hash(OneLevel(hash, OneLevel(hash, c, fanout), fanout))]
  {
    var c1 := OneLevel(hash, c, fanout);
    var c2 := OneLevel(hash, c1, fanout);
    AtMost(hash, c, fanout, m1);
    AtMost(hash, c1, fanout, m2);
    assert OneLevel(hash, c2, fanout) == [hash(c2)];
    ThreeLevelsUnfold(hash, c, fanout);
  }

  lemma AtMost<H>(hash: seq<H> -> H, hs: seq<H>, fanout: nat, m: nat)
    requires fanout >= 1 && 0 < |hs| <= m * fanout
    ensures 0 < |OneLevel(hash, hs, fanout)| <= m
  {
    OneLevelCount(hash, hs, fanout, m);
  }

  lemma RootOfLevel<H>(hash: seq<H> -> H, hs: seq<H>, fanout: nat)
    requires fanout >= 2
    requires |hs| >= 2 * fanout
    ensures Root(hash, hs, fanout) == Root(hash, OneLevel(hash, hs, fanout), fanout)
  {
    OneLevelCount(hash, hs, fanout, 2);
  }

  /** Three levels below at least fanout^4 hashes do not change the root. */
  lemma RootOfThreeLevels<H>(hash: seq<H> -> H, hs: seq<H>, fanout: nat)
    requires fanout >= 2
    requires |hs| >= fanout * fanout * fanout * fanout
    ensures |Levels(hash, hs, fanout, 3)| >= 2
    ensures Root(hash, hs, fanout) == Root(hash, Levels(hash, hs, fanout, 3), fanout)
  {
    MulNonNegative(fanout, fanout);
    MulNonNegative(fanout * fanout, fanout);
    MulGap(2, fanout, fanout);
    MulGap(2, fanout * fanout, fanout);
    var h1 := OneLevel(hash, hs, fanout);
    var h2 := OneLevel(hash, h1, fanout);
    RootOfBigLevel(hash, hs, fanout, fanout * fanout * fanout);
    RootOfBigLevel(hash, h1, fanout, fanout * fanout);
    RootOfBigLevel(hash, h2, fanout, fanout);
    ThreeLevelsUnfold(hash, hs, fanout);
  }

  lemma RootOfBigLevel<H>(hash: seq<H> -> H, hs: seq<H>, fanout: nat, m: nat)
    requires fanout >= 2 && m >= 2 && |hs| >= m * fanout
    ensures |OneLevel(hash, hs, fanout)| >= m
    ensures Root(hash, hs, fanout) == Root(hash, OneLevel(hash, hs, fanout), fanout)
  {
    OneLevelCount(hash, hs, fanout, m);
    MulGap(2, m, fanout);
    RootOfLevel(hash, hs, fanout);
  }

  /**
   * The root is the one hash of the first level that has a single one: at least one level is
   * hashed, and no level above the first with a single hash.
   */
  lemma {:induction false} RootIsLevels<H>(hash: seq<H> -> H, hs: seq<H>, fanout: nat) returns (k: nat)
    requires fanout >= 2 && hs != []
    ensures k >= 1 && Levels(hash, hs, fanout, k) == [Root(hash, hs, fanout)]
    ensures forall j :: 1 <= j < k ==> |Levels(hash, hs, fanout, j)| > 1
    decreases |hs|
  {
    var up := OneLevel(hash, hs, fanout);
    OneLevelShrinks(hash, hs, fanout);
    assert Levels(hash, up, fanout, 0) == up;
    if |up| == 1 {
      k := 1;
      assert Levels(hash, hs, fanout, 1) == up;
    } else {
      var rest := RootIsLevels(hash, up, fanout);
      k := rest + 1;
      forall j | 1 <= j < k ensures |Levels(hash, hs, fanout, j)| > 1 {
        assert Levels(hash, hs, fanout, j) == Levels(hash, up, fanout, j - 1);
      }
    }
  }

  /** At most fanout hashes are one group. */
  lemma RootOfOneGroup<H>(hash: seq<H> -> H, hs: seq<H>, fanout: nat)
    requires fanout >= 2 && |hs| <= fanout
    ensures Root(hash, hs, fanout) == hash(hs)
  {
  }

  /** One hash more is a group of its own. */
  lemma RootOfTwoGroups<H>(hash: seq<H> -> H, hs: seq<H>, fanout: nat)
    requires fanout >= 2 && |hs| == fanout + 1
    ensures Root(hash, hs, fanout) == hash([hash(hs[..fanout]), hash(hs[fanout..])])
  {
    var a, b := hash(hs[..fanout]), hash(hs[fanout..]);
    assert OneLevel(hash, hs[fanout..], fanout) == [b];
    assert OneLevel(hash, hs, fanout) == [a, b];
    RootOfOneGroup(hash, [a, b], fanout);
  }

  /** Each hash of a level is that of its own group, whose place is a multiple of the fanout. */
  lemma {:induction false} OneLevelAt<H>(hash: seq<H> -> H, hs: seq<H>, fanout: nat, i: nat)
    requires fanout >= 1 && i < |OneLevel(hash, hs, fanout)|
    ensures 0 <= i * fanout < |hs|
    ensures OneLevel(hash, hs, fanout)[i] == hash(hs[i * fanout..Min(i * fanout + fanout, |hs|)])
    decreases |hs|
  {
    if |hs| <= fanout {
      assert hs[0..|hs|] == hs;
    } else if i == 0 {
      assert hs[0..fanout] == hs[..fanout];
    } else {
      OneLevelAt(hash, hs[fanout..], fanout, i - 1);
      GroupShift(hs, fanout, i);
    }
  }

  lemma GroupShift<H>(hs: seq<H>, fanout: nat, i: nat)
    requires 1 <= fanout <= |hs| && i >= 1 && 0 <= (i - 1) * fanout < |hs| - fanout
    ensures 0 <= i * fanout < |hs|
    ensures hs[fanout..][(i - 1) * fanout..Min((i - 1) * fanout + fanout, |hs| - fanout)] ==
              hs[i * fanout..Min(i * fanout + fanout, |hs|)]
  {
    assert i * fanout == (i - 1) * fanout + fanout;
  }

  // ----- the root binds the hashes -----

  ghost predicate Injective<H(!new)>(hash: seq<H> -> H) {
    forall a: seq<H>, b: seq<H> :: hash(a) == hash(b) ==> a == b
  }

  lemma {:induction false} OneLevelBinds<H(!new)>(hash: seq<H> -> H, a: seq<H>, b: seq<H>, fanout: nat)
    requires fanout >= 1
    requires Injective(hash)
    requires |a| == |b|
    requires OneLevel(hash, a, fanout) == OneLevel(hash, b, fanout)
    ensures a == b
    decreases |a|
  {
    if |a| > fanout {
      var ra, rb := OneLevel(hash, a[fanout..], fanout), OneLevel(hash, b[fanout..], fanout);
      assert ([hash(a[..fanout])] + ra)[0] == ([hash(b[..fanout])] + rb)[0];
      assert ([hash(a[..fanout])] + ra)[1..] == ra && ([hash(b[..fanout])] + rb)[1..] == rb;
      OneLevelBinds(hash, a[fanout..], b[fanout..], fanout);
      assert a == a[..fanout] + a[fanout..] && b == b[..fanout] + b[fanout..];
    } else if a != [] {
      assert [hash(a)][0] == [hash(b)][0];
    }
  }

  /** With an injective hash, equally many account hashes with equal roots are equal. */
  lemma {:induction false} RootBinds<H(!new)>(hash: seq<H> -> H, a: seq<H>, b: seq<H>, fanout: nat)
    requires fanout >= 2
    requires Injective(hash)
    requires |a| == |b|
    requires Root(hash, a, fanout) == Root(hash, b, fanout)
    ensures a == b
    decreases |a|
  {
    if a != [] {
      var ua, ub := OneLevel(hash, a, fanout), OneLevel(hash, b, fanout);
      OneLevelLength(hash, a, fanout);
      OneLevelLength(hash, b, fanout);
      CeilUnique(|a|, fanout, |ua|, |ub|);
      OneLevelShrinks(hash, a, fanout);
      if |ua| == 1 {
        assert ua == [ua[0]] && ub == [ub[0]];
      } else {
        RootBinds(hash, ua, ub, fanout);
      }
      OneLevelBinds(hash, a, b, fanout);
    }
  }
}
