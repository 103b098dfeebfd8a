/**
 * The walk of the slots over the partitions. A slot visits the partitions
 * after its parent's index up to its own. Over a chain of slots the indexes
 * follow each other round the cycle, except where a slot lands on index 0 of a
 * later cycle, and whole cycles that a slot skips are not made up for.
 */
module PartitionWalk {
  import opened Arith
  import opened Common
  import opened Partition

  /** The partitions that a pair of indexes covers, by their end index. */
  function EndIndexes(p: Partition): (r: seq<nat>)
    requires p.start <= p.end
  {
    if p.start == p.end && p.start == 0 then [0] else Run(p.start + 1, p.end + 1)
  }

  function Run(a: nat, b: nat): (s: seq<nat>)
    requires a <= b
    ensures |s| == b - a
  {
    seq(b - a, i requires 0 <= i => a + i)
  }

  /** The partitions of a slot, as a list of index pairs. */
  function PartitionsBetween(slot: Slot, parent: Slot, n: nat): (r: seq<Partition>)
    requires n >= 1
  {
    if parent / n < slot / n then
      (if slot % n > 0 then [Partition(parent % n, n - 1, n), Partition(0, 0, n)] else [])
      + [Partition(0, slot % n, n)]
    else
      [Partition(parent % n, slot % n, n)]
  }

  method GetPartitions(slot: Slot, parent: Slot, n: nat) returns (partitions: seq<Partition>)
    requires n >= 1
    ensures partitions == PartitionsBetween(slot, parent, n)
  {
    var parentIndex := parent % n;
    partitions := [];
    if parent / n < slot / n {
      if slot % n > 0 {
        partitions := partitions + [Partition(parentIndex, n - 1, n)];
        partitions := partitions + [Partition(0, 0, n)];
      }
      parentIndex := 0;
    }
    partitions := partitions + [Partition(parentIndex, slot % n, n)];
  }

  ghost predicate AllOrdered(ps: seq<Partition>) {
    forall i :: 0 <= i < |ps| ==> ps[i].start <= ps[i].end
  }

  /** All end indexes of a list of pairs, in order. */
  function Covered(ps: seq<Partition>): (r: seq<nat>)
    requires AllOrdered(ps)
  {
    if ps == [] then [] else EndIndexes(ps[0]) + Covered(ps[1..])
  }

  // ----- residues -----

  function Residues(a: nat, b: nat, n: nat): (s: seq<nat>)
    requires a <= b && n >= 1
    ensures |s| == b - a
  {
    seq(b - a, i requires 0 <= i => (a + i) % n)
  }

  lemma ResiduesConcat(a: nat, b: nat, c: nat, n: nat)
    requires a <= b <= c && n >= 1
    ensures Residues(a, b, n) + Residues(b, c, n) == Residues(a, c, n)
  {
  }

  lemma RunConcat(a: nat, b: nat, c: nat)
    requires a <= b <= c
    ensures Run(a, b) + Run(b, c) == Run(a, c)
  {
  }

  lemma ModIs(x: nat, n: nat, q: nat, r: nat)
    requires n > 0 && x == q * n + r && r < n
    ensures x % n == r
  {
    DivIs(x, n, q);
  }

  lemma ResiduesRun(q: nat, a: nat, b: nat, n: nat)
    requires n >= 1 && a <= b <= n
    ensures Residues(q * n + a, q * n + b, n) == Run(a, b)
  {
    forall i | 0 <= i < b - a ensures Residues(q * n + a, q * n + b, n)[i] == Run(a, b)[i] {
      ModIs(q * n + a + i, n, q, a + i);
    }
  }

  lemma SlotIs(s: Slot, n: nat)
    requires n >= 1
    ensures s == (s / n) * n + s % n && s % n < n
  {
  }

  // ----- one step -----

  /** The step stays in its cycle, or enters the next without skipping to its start. */
  predicate IsExact(slot: Slot, parent: Slot, n: nat)
    requires n >= 1
  {
    || slot / n == parent / n
    || (slot / n == parent / n + 1 && (slot % n > 0 || parent % n == n - 1))
  }

  lemma CyclesOrdered(slot: Slot, parent: Slot, n: nat)
    requires n >= 1 && parent < slot
    ensures parent / n <= slot / n
    ensures parent / n == slot / n ==> parent % n < slot % n
    ensures AllOrdered(PartitionsBetween(slot, parent, n))
  {
    SlotIs(slot, n);
    SlotIs(parent, n);
    MulGap(slot / n, parent / n, n);
  }

  ghost function CoveredBetween(slot: Slot, parent: Slot, n: nat): (r: seq<nat>)
    requires n >= 1 && parent < slot
  {
    CyclesOrdered(slot, parent, n);
    Covered(PartitionsBetween(slot, parent, n))
  }

  lemma CoveredGap(r: nat, c: nat, n: nat)
    requires r < n && 0 < c < n
    ensures Covered([Partition(r, n - 1, n), Partition(0, 0, n), Partition(0, c, n)]) == Run(r + 1, n) + Run(0, c + 1)
  {
    var ps := [Partition(r, n - 1, n), Partition(0, 0, n), Partition(0, c, n)];
    assert ps[1..] == [Partition(0, 0, n), Partition(0, c, n)];
    assert ps[1..][1..] == [Partition(0, c, n)];
    assert ps[1..][1..][1..] == [];
    assert Covered(ps[1..][1..]) == Run(1, c + 1);
    RunConcat(0, 1, c + 1);
    assert [0] == Run(0, 1);
    assert Covered(ps[1..]) == Run(0, c + 1);
  }

  lemma CoveredIs(slot: Slot, parent: Slot, n: nat)
    requires n >= 1 && parent < slot
    ensures CoveredBetween(slot, parent, n) ==
              if parent / n == slot / n then Run(parent % n + 1, slot % n + 1)
              else if slot % n > 0 then Run(parent % n + 1, n) + Run(0, slot % n + 1)
              else [0]
  {
    CyclesOrdered(slot, parent, n);
    if parent / n < slot / n && slot % n > 0 {
      CoveredGap(parent % n, slot % n, n);
      assert PartitionsBetween(slot, parent, n) ==
             [Partition(parent % n, n - 1, n), Partition(0, 0, n), Partition(0, slot % n, n)];
    } else {
      var p := Partition(if parent / n < slot / n then 0 else parent % n, slot % n, n);
      assert PartitionsBetween(slot, parent, n) == [p];
      assert Covered([p]) == EndIndexes(p);
    }
  }

  lemma ResiduesGap(q: nat, r: nat, c: nat, n: nat)
    requires r < n && c < n
    ensures (q + 1) * n == q * n + n
    ensures Residues(q * n + r + 1, (q + 1) * n + c + 1, n) == Run(r + 1, n) + Run(0, c + 1)
  {
    assert (q + 1) * n == q * n + n;
    ResiduesRun(q, r + 1, n, n);
    ResiduesRun(q + 1, 0, c + 1, n);
    ResiduesConcat(q * n + r + 1, (q + 1) * n, (q + 1) * n + c + 1, n);
  }

  lemma ResiduesSameCycle(slot: Slot, parent: Slot, n: nat, r: nat, c: nat)
    requires n >= 1 && parent < slot && slot / n == parent / n && r == parent % n && c == slot % n
    ensures r <= c && Residues(parent + 1, slot + 1, n) == Run(r + 1, c + 1)
  {
    SlotIs(slot, n);
    SlotIs(parent, n);
    ResiduesRun(parent / n, r + 1, c + 1, n);
  }

  lemma ResiduesNextCycle(slot: Slot, parent: Slot, n: nat, r: nat, c: nat)
    requires n >= 1 && parent < slot && slot / n == parent / n + 1 && r == parent % n && c == slot % n
    ensures r < n && Residues(parent + 1, slot + 1, n) == Run(r + 1, n) + Run(0, c + 1)
  {
    SlotIs(slot, n);
    SlotIs(parent, n);
    ResiduesGap(parent / n, r, c, n);
  }

  lemma ExactStep(slot: Slot, parent: Slot, n: nat)
    requires n >= 1 && parent < slot && IsExact(slot, parent, n)
    ensures CoveredBetween(slot, parent, n) == Residues(parent + 1, slot + 1, n)
  {
    var r, c := parent % n, slot % n;
    CoveredIs(slot, parent, n);
    if slot / n == parent / n {
      ResiduesSameCycle(slot, parent, n, r, c);
    } else {
      ResiduesNextCycle(slot, parent, n, r, c);
      assert c == 0 ==> Run(r + 1, n) + Run(0, c + 1) == [0];
    }
  }

  lemma InexactStep(slot: Slot, parent: Slot, n: nat)
    requires n >= 1 && parent < slot && !IsExact(slot, parent, n)
    ensures |CoveredBetween(slot, parent, n)| < slot - parent
  {
    CyclesOrdered(slot, parent, n);
    CoveredIs(slot, parent, n);
    SlotIs(slot, n);
    SlotIs(parent, n);
    var q := parent / n;
    if slot / n == q + 1 {
      assert (q + 1) * n == q * n + n;
    } else {
      assert (q + 2) * n == q * n + n + n;
      MulGap(q + 2, slot / n, n);
    }
  }

  /** A step covers the residues of the slots behind its parent exactly when it is exact. */
  lemma StepExactly(slot: Slot, parent: Slot, n: nat)
    requires n >= 1 && parent < slot
    ensures |CoveredBetween(slot, parent, n)| <= slot - parent
    ensures CoveredBetween(slot, parent, n) == Residues(parent + 1, slot + 1, n) <==> IsExact(slot, parent, n)
  {
    if IsExact(slot, parent, n) { ExactStep(slot, parent, n); } else { InexactStep(slot, parent, n); }
  }

  // ----- a chain of slots -----

  /** Each slot is a later slot's parent. */
  ghost predicate IsChain(slots: seq<Slot>) {
    slots != [] && forall i, j :: 0 <= i < j < |slots| ==> slots[i] < slots[j]
  }

  ghost predicate AllExact(slots: seq<Slot>, n: nat)
    requires n >= 1
  {
    forall i :: 0 <= i < |slots| - 1 ==> ExactAt(slots, i, n)
  }

  ghost predicate ExactAt(slots: seq<Slot>, i: nat, n: nat)
    requires n >= 1 && i + 1 < |slots|
  {
    IsExact(slots[i + 1], slots[i], n)
  }

  /** What each slot behind the first of the chain covers. */
  ghost function Steps(slots: seq<Slot>, n: nat): (steps: seq<seq<nat>>)
    requires n >= 1 && IsChain(slots)
    ensures |steps| == |slots| - 1
  {
    seq(|slots| - 1, i requires 0 <= i < |slots| - 1 => CoveredBetween(slots[i + 1], slots[i], n))
  }

  ghost function Flat(steps: seq<seq<nat>>): (r: seq<nat>) {
    if steps == [] then [] else Flat(steps[..|steps| - 1]) + steps[|steps| - 1]
  }

  ghost function Walk(slots: seq<Slot>, n: nat): (r: seq<nat>)
    requires n >= 1 && IsChain(slots)
  {
    Flat(Steps(slots, n))
  }

  /** The residues of the slots between one slot of the chain and the next. */
  ghost function Gap(slots: seq<Slot>, i: nat, n: nat): (r: seq<nat>)
    requires n >= 1 && IsChain(slots) && i + 1 < |slots|
  {
    Residues(slots[i] + 1, slots[i + 1] + 1, n)
  }

  ghost function UpTo(slots: seq<Slot>, m: nat, n: nat): (r: seq<nat>)
    requires n >= 1 && IsChain(slots) && m < |slots|
  {
    assert slots[0] <= slots[m];
    Residues(slots[0] + 1, slots[m] + 1, n)
  }

  /** Steps that are no longer than the gaps fill them exactly when each fills its own. */
  lemma {:induction false} FlatExactly(slots: seq<Slot>, n: nat, steps: seq<seq<nat>>)
    requires n >= 1 && IsChain(slots) && |steps| < |slots|
    requires forall i :: 0 <= i < |steps| ==> |steps[i]| <= |Gap(slots, i, n)|
    ensures |Flat(steps)| <= |UpTo(slots, |steps|, n)|
    ensures Flat(steps) == UpTo(slots, |steps|, n) <==>
              forall i :: 0 <= i < |steps| ==> steps[i] == Gap(slots, i, n)
    decreases |steps|
  {
    if steps != [] {
      var m := |steps| - 1;
      FlatExactly(slots, n, steps[..m]);
      ResiduesConcat(slots[0] + 1, slots[m] + 1, slots[m + 1] + 1, n);
      BothEqual(Flat(steps[..m]), UpTo(slots, m, n), steps[m], Gap(slots, m, n));
      assert forall i :: 0 <= i < m ==> steps[..m][i] == steps[i];
    }
  }

  /**
   * A chain covers the residues of all its slots, skipped ones too and in
   * order, exactly when each of its steps is exact.
   */
  lemma WalkExactly(slots: seq<Slot>, n: nat)
    requires n >= 1 && IsChain(slots)
    ensures Walk(slots, n) == UpTo(slots, |slots| - 1, n) <==> AllExact(slots, n)
  {
    var steps := Steps(slots, n);
    forall i | 0 <= i < |steps|
      ensures |steps[i]| <= |Gap(slots, i, n)| && (steps[i] == Gap(slots, i, n) <==> ExactAt(slots, i, n))
    {
      StepAtExactly(slots, n, steps, i);
    }
    FlatExactly(slots, n, steps);
  }

  lemma StepAtExactly(slots: seq<Slot>, n: nat, steps: seq<seq<nat>>, i: nat)
    requires n >= 1 && IsChain(slots) && steps == Steps(slots, n) && i < |steps|
    ensures |steps[i]| <= |Gap(slots, i, n)| && (steps[i] == Gap(slots, i, n) <==> ExactAt(slots, i, n))
  {
    StepExactly(slots[i + 1], slots[i], n);
  }

  lemma BothEqual(a: seq<nat>, longA: seq<nat>, b: seq<nat>, longB: seq<nat>)
    requires |a| <= |longA| && |b| <= |longB|
    ensures a + b == longA + longB <==> a == longA && b == longB
  {
    if a + b == longA + longB {
      assert |a + b| == |longA + longB|;
      assert a == (a + b)[..|a|] && longA == (longA + longB)[..|a|];
      assert b == (a + b)[|a|..] && longB == (longA + longB)[|a|..];
    }
  }

  // ----- every chain walks round the cycle -----

  /** The indexes go on from the index of slot `a`, round the cycle. */
  ghost predicate GoesOn(s: seq<nat>, a: Slot, n: nat)
    requires n >= 1
  {
    s == Residues(a + 1, a + 1 + |s|, n)
  }

  /** The step lands on index 0 of a later cycle, and not from the last index. */
  predicate Lands(slot: Slot, parent: Slot, n: nat)
    requires n >= 1
  {
    parent / n < slot / n && slot % n == 0 && parent % n != n - 1
  }

  /** What such a step leaves out: the rest of its parent's cycle. */
  function LeftOut(slot: Slot, parent: Slot, n: nat): (s: seq<nat>)
    requires n >= 1
  {
    if Lands(slot, parent, n) then Run(parent % n + 1, n) else []
  }

  /** The cycles between those of the two slots. */
  function SkippedCycles(slot: Slot, parent: Slot, n: nat): (k: nat)
    requires n >= 1
  {
    if parent / n < slot / n then slot / n - parent / n - 1 else 0
  }

  lemma ModAdd(x: nat, i: nat, n: nat)
    requires n >= 1
    ensures (x + i) % n == (x % n + i) % n
  {
    SlotIs(x, n);
    SlotIs(x % n + i, n);
    ModOfSum(x / n, (x % n + i) / n, (x % n + i) % n, n);
  }

  lemma ModOfSum(p: nat, q: nat, r: nat, n: nat)
    requires r < n
    ensures (p * n + (q * n + r)) % n == r
  {
    assert (p + q) * n == p * n + q * n;
    ModIs(p * n + (q * n + r), n, p + q, r);
  }

  lemma ResiduesShift(x: nat, y: nat, k: nat, n: nat)
    requires n >= 1 && x % n == y % n
    ensures Residues(x, x + k, n) == Residues(y, y + k, n)
  {
    var s, t := Residues(x, x + k, n), Residues(y, y + k, n);
    forall i | 0 <= i < k ensures s[i] == t[i] {
      ModAdd(x, i, n);
      ModAdd(y, i, n);
    }
  }

  lemma RunIsResidues(a: nat, b: nat, n: nat)
    requires a <= b <= n && n >= 1
    ensures Run(a, b) == Residues(a, b, n)
  {
    ResiduesRun(0, a, b, n);
  }

  /** From index r to the end of the cycle and on to index c. */
  lemma RoundTheEnd(r: nat, c: nat, n: nat)
    requires r < n && c < n
    ensures Run(r + 1, n) + Run(0, c + 1) == Residues(r + 1, n + c + 1, n)
  {
    ResiduesGap(0, r, c, n);
  }

  lemma GoesOnFromIndex(s: seq<nat>, a: Slot, n: nat)
    requires n >= 1
    ensures GoesOn(s, a, n) <==> s == Residues(a % n + 1, a % n + 1 + |s|, n)
  {
    ModAdd(a, 1, n);
    ResiduesShift(a + 1, a % n + 1, |s|, n);
  }

  /** With what it leaves out put in front, every step goes on from its parent. */
  lemma StepGoesOn(slot: Slot, parent: Slot, n: nat)
    requires n >= 1 && parent < slot
    ensures GoesOn(LeftOut(slot, parent, n) + CoveredBetween(slot, parent, n), parent, n)
  {
    var r, c := parent % n, slot % n;
    SlotIs(slot, n);
    SlotIs(parent, n);
    var s := LeftOut(slot, parent, n) + CoveredBetween(slot, parent, n);
    CoveredIs(slot, parent, n);
    CyclesOrdered(slot, parent, n);
    if parent / n == slot / n {
      RunIsResidues(r + 1, c + 1, n);
      assert s == Run(r + 1, c + 1);
    } else {
      RoundTheEnd(r, c, n);
      assert [0] == Run(0, 1);
      assert s == Run(r + 1, n) + Run(0, c + 1);
    }
    GoesOnFromIndex(s, parent, n);
  }

  /** A step covers something, and ends at the index of its slot. */
  lemma StepEnds(slot: Slot, parent: Slot, n: nat)
    requires n >= 1 && parent < slot
    ensures var s := CoveredBetween(slot, parent, n); s != [] && s[|s| - 1] == slot % n
  {
    CoveredIs(slot, parent, n);
    CyclesOrdered(slot, parent, n);
  }

  /** So a step goes on from its parent exactly if it does not land on a later index 0. */
  lemma StepGoesOnExactly(slot: Slot, parent: Slot, n: nat)
    requires n >= 1 && parent < slot
    ensures GoesOn(CoveredBetween(slot, parent, n), parent, n) <==> !Lands(slot, parent, n)
  {
    var s := CoveredBetween(slot, parent, n);
    if Lands(slot, parent, n) {
      LandingDrops(slot, parent, n);
      ModAdd(parent, 1, n);
      ModIs(parent % n + 1, n, 0, parent % n + 1);
      assert Residues(parent + 1, parent + 1 + |s|, n)[0] != s[0];
    } else {
      StepGoesOn(slot, parent, n);
      assert LeftOut(slot, parent, n) + s == s;
    }
  }

  /**
   * A step that lands on index 0 of a later cycle covers that index only: what
   * it leaves out are the indexes behind its parent's up to the last.
   */
  lemma LandingDrops(slot: Slot, parent: Slot, n: nat)
    requires n >= 1 && parent < slot && parent / n < slot / n && slot % n == 0
    ensures CoveredBetween(slot, parent, n) == [0]
    ensures LeftOut(slot, parent, n) == Run(parent % n + 1, n)
    ensures GoesOn(Run(parent % n + 1, n) + [0], parent, n)
  {
    CoveredIs(slot, parent, n);
    StepGoesOn(slot, parent, n);
    assert parent % n == n - 1 ==> Run(parent % n + 1, n) == [];
  }

  /** Every slot of a step is covered, left out, or in a cycle that was skipped. */
  lemma StepAccounts(slot: Slot, parent: Slot, n: nat)
    requires n >= 1 && parent < slot
    ensures slot - parent ==
              |LeftOut(slot, parent, n)| + |CoveredBetween(slot, parent, n)| + SkippedCycles(slot, parent, n) * n
    ensures IsExact(slot, parent, n) <==> !Lands(slot, parent, n) && SkippedCycles(slot, parent, n) == 0
  {
    CoveredIs(slot, parent, n);
    CyclesOrdered(slot, parent, n);
    CycleGap(slot, parent, n, SkippedCycles(slot, parent, n));
  }

  lemma CycleGap(slot: Slot, parent: Slot, n: nat, k: nat)
    requires n >= 1
    ensures slot / n == parent / n ==> slot - parent == slot % n - parent % n
    ensures slot / n == parent / n + 1 + k ==> slot - parent == k * n + n - parent % n + slot % n
  {
    SlotIs(slot, n);
    SlotIs(parent, n);
    assert (parent / n + 1 + k) * n == parent / n * n + n + k * n;
  }

  ghost predicate EndsAt(s: seq<nat>, c: nat) {
    s != [] && s[|s| - 1] == c
  }

  lemma SameIndexNext(x: nat, b: nat, k: nat, n: nat)
    requires n >= 1 && x % n == b % n
    ensures Residues(x + 1, x + 1 + k, n) == Residues(b + 1, b + 1 + k, n)
  {
    ModAdd(x, 1, n);
    ModAdd(b, 1, n);
    ResiduesShift(x + 1, b + 1, k, n);
  }

  lemma LastResidue(s: seq<nat>, a: Slot, n: nat)
    requires n >= 1 && s != [] && GoesOn(s, a, n)
    ensures s[|s| - 1] == (a + |s|) % n
  {
    assert Residues(a + 1, a + 1 + |s|, n)[|s| - 1] == (a + 1 + (|s| - 1)) % n;
  }

  lemma GoesOnConcat(s: seq<nat>, t: seq<nat>, a: Slot, b: Slot, n: nat)
    requires n >= 1 && (s == [] ==> a == b) && (s != [] ==> EndsAt(s, b % n))
    ensures GoesOn(s + t, a, n) <==> GoesOn(s, a, n) && GoesOn(t, b, n)
  {
    var x, y := a + 1 + |s|, a + 1 + |s| + |t|;
    ResiduesConcat(a + 1, x, y, n);
    BothEqual(s, Residues(a + 1, x, n), t, Residues(x, y, n));
    if GoesOn(s, a, n) {
      if s != [] { LastResidue(s, a, n); }
      SameIndexNext(a + |s|, b, |t|, n);
    }
  }

  ghost predicate StepEndsAt(slots: seq<Slot>, n: nat, steps: seq<seq<nat>>, i: nat)
    requires n >= 1 && i < |steps| < |slots|
  {
    EndsAt(steps[i], slots[i + 1] % n)
  }

  ghost predicate StepGoesOnAt(slots: seq<Slot>, n: nat, steps: seq<seq<nat>>, i: nat)
    requires n >= 1 && i < |steps| < |slots|
  {
    GoesOn(steps[i], slots[i], n)
  }

  /** Steps that end at the indexes of their slots go on, all together, exactly if each does. */
  lemma {:induction false} FlatGoesOn(slots: seq<Slot>, n: nat, steps: seq<seq<nat>>)
    requires n >= 1 && |steps| < |slots|
    requires forall i :: 0 <= i < |steps| ==> StepEndsAt(slots, n, steps, i)
    ensures steps != [] ==> EndsAt(Flat(steps), slots[|steps|] % n)
    ensures GoesOn(Flat(steps), slots[0], n) <==> forall i :: 0 <= i < |steps| ==> StepGoesOnAt(slots, n, steps, i)
    decreases |steps|
  {
    if steps != [] {
      var m := |steps| - 1;
      var before := steps[..m];
      forall i | 0 <= i < m
        ensures StepEndsAt(slots, n, before, i)
        ensures StepGoesOnAt(slots, n, before, i) <==> StepGoesOnAt(slots, n, steps, i)
      {
        assert StepEndsAt(slots, n, steps, i) && before[i] == steps[i];
      }
      FlatGoesOn(slots, n, before);
      assert StepEndsAt(slots, n, steps, m);
      GoesOnConcat(Flat(before), steps[m], slots[0], slots[m], n);
      assert StepGoesOnAt(slots, n, steps, m) <==> GoesOn(steps[m], slots[m], n);
    }
  }

  ghost predicate LandsAt(slots: seq<Slot>, i: nat, n: nat)
    requires n >= 1 && i + 1 < |slots|
  {
    Lands(slots[i + 1], slots[i], n)
  }

  lemma StepIs(slots: seq<Slot>, n: nat, steps: seq<seq<nat>>, i: nat)
    requires n >= 1 && IsChain(slots) && steps == Steps(slots, n) && i < |steps|
    ensures steps[i] == CoveredBetween(slots[i + 1], slots[i], n)
  {
  }

  lemma StepOf(s: seq<nat>, slot: Slot, parent: Slot, n: nat)
    requires n >= 1 && parent < slot && s == CoveredBetween(slot, parent, n)
    ensures EndsAt(s, slot % n)
    ensures GoesOn(s, parent, n) <==> !Lands(slot, parent, n)
  {
    StepEnds(slot, parent, n);
    StepGoesOnExactly(slot, parent, n);
  }

  lemma StepAtGoesOn(slots: seq<Slot>, n: nat, steps: seq<seq<nat>>, i: nat)
    requires n >= 1 && IsChain(slots) && steps == Steps(slots, n) && i < |steps|
    ensures StepEndsAt(slots, n, steps, i)
    ensures StepGoesOnAt(slots, n, steps, i) <==> !LandsAt(slots, i, n)
  {
    StepIs(slots, n, steps, i);
    StepOf(steps[i], slots[i + 1], slots[i], n);
  }

  /**
   * The indexes covered by any chain follow each other round the cycle, with
   * no repeat or omission, exactly if no slot of it lands on a later index 0.
   */
  lemma WalkGoesOnExactly(slots: seq<Slot>, n: nat)
    requires n >= 1 && IsChain(slots)
    ensures GoesOn(Walk(slots, n), slots[0], n) <==>
              forall i :: 0 <= i < |slots| - 1 ==> !LandsAt(slots, i, n)
    ensures |slots| > 1 ==> EndsAt(Walk(slots, n), slots[|slots| - 1] % n)
  {
    var steps := Steps(slots, n);
    forall i | 0 <= i < |steps|
      ensures StepEndsAt(slots, n, steps, i)
      ensures StepGoesOnAt(slots, n, steps, i) <==> !LandsAt(slots, i, n)
    {
      StepAtGoesOn(slots, n, steps, i);
    }
    FlatGoesOn(slots, n, steps);
  }

  lemma FullStep(slot: Slot, parent: Slot, n: nat, s: seq<nat>)
    requires n >= 1 && parent < slot
    requires s == LeftOut(slot, parent, n) + CoveredBetween(slot, parent, n)
    ensures EndsAt(s, slot % n) && GoesOn(s, parent, n)
  {
    StepEnds(slot, parent, n);
    StepGoesOn(slot, parent, n);
  }

  /** What each slot behind the first covers, behind what it leaves out. */
  ghost function FullSteps(slots: seq<Slot>, n: nat): (steps: seq<seq<nat>>)
    requires n >= 1 && IsChain(slots)
    ensures |steps| == |slots| - 1
  {
    seq(|slots| - 1, i requires 0 <= i < |slots| - 1 =>
      LeftOut(slots[i + 1], slots[i], n) + CoveredBetween(slots[i + 1], slots[i], n))
  }

  /** On every chain, what is left out at the landings is all that is missing from the round. */
  lemma WalkMissesOnlyLandings(slots: seq<Slot>, n: nat)
    requires n >= 1 && IsChain(slots)
    ensures GoesOn(Flat(FullSteps(slots, n)), slots[0], n)
  {
    var steps := FullSteps(slots, n);
    forall i | 0 <= i < |steps|
      ensures StepEndsAt(slots, n, steps, i) && StepGoesOnAt(slots, n, steps, i)
    {
      FullStepAt(slots, n, steps, i);
    }
    FlatGoesOn(slots, n, steps);
  }

  lemma FullStepAt(slots: seq<Slot>, n: nat, steps: seq<seq<nat>>, i: nat)
    requires n >= 1 && IsChain(slots) && steps == FullSteps(slots, n) && i < |steps|
    ensures StepEndsAt(slots, n, steps, i) && StepGoesOnAt(slots, n, steps, i)
  {
    FullStep(slots[i + 1], slots[i], n, steps[i]);
  }

  // ----- each pubkey once per cycle -----

  function CountOf(s: seq<nat>, c: nat): (r: nat) {
    if s == [] then 0 else (if s[0] == c then 1 else 0) + CountOf(s[1..], c)
  }

  lemma {:induction false} CountConcat(a: seq<nat>, b: seq<nat>, c: nat)
    ensures CountOf(a + b, c) == CountOf(a, c) + CountOf(b, c)
  {
    if a == [] {
      assert a + b == b;
    } else {
      CountConcat(a[1..], b, c);
      assert (a + b)[1..] == a[1..] + b;
    }
  }

  lemma {:induction false} CountRun(a: nat, b: nat, c: nat)
    requires a <= b
    ensures CountOf(Run(a, b), c) == if a <= c < b then 1 else 0
    decreases b - a
  {
    if a < b {
      CountRun(a + 1, b, c);
      assert Run(a, b)[1..] == Run(a + 1, b);
    }
  }

  lemma CountCycle(a: nat, n: nat, c: nat)
    requires n >= 1 && c < n
    ensures CountOf(Residues(a, a + n, n), c) == 1
  {
    var q, r := a / n, a % n;
    SlotIs(a, n);
    assert (q + 1) * n == q * n + n;
    ResiduesRun(q, r, n, n);
    ResiduesRun(q + 1, 0, r, n);
    ResiduesConcat(a, (q + 1) * n, a + n, n);
    CountConcat(Run(r, n), Run(0, r), c);
    CountRun(r, n, c);
    CountRun(0, r, c);
  }

  ghost predicate AllValid(ps: seq<Partition>) {
    forall i :: 0 <= i < |ps| ==> ps[i].Valid()
  }

  /** How many of the index pairs have the pubkey in their range. */
  ghost function Visits(ps: seq<Partition>, k: Pubkey): (r: nat)
    requires AllValid(ps)
  {
    if ps == [] then 0 else (if Holds(ps[0], k) then 1 else 0) + Visits(ps[1..], k)
  }

  /** The range of a pair has the pubkeys of the partitions that it covers. */
  lemma RangeMatchesEndIndexes(p: Partition, k: Pubkey)
    requires p.Valid()
    ensures !p.IsNoop() ==> CountOf(EndIndexes(p), PartitionOf(k, p.count)) == if Holds(p, k) then 1 else 0
    ensures p.IsNoop() ==> EndIndexes(p) == []
  {
    var c := PartitionOf(k, p.count);
    if p.start == 0 && p.end == 0 { assert [0] == Run(0, 1); CountRun(0, 1, c); }
    else { CountRun(p.start + 1, p.end + 1, c); }
  }

  ghost predicate NoopsHoldOnlyLast(ps: seq<Partition>, n: nat)
    requires AllValid(ps)
  {
    forall i :: 0 <= i < |ps| ==> ps[i].count == n && (ps[i].IsNoop() ==> NoopKey(ps[i]) == PUBKEY_SIZE - 1)
  }

  lemma {:induction false} VisitsAreCounted(ps: seq<Partition>, n: nat, k: Pubkey)
    requires AllValid(ps) && NoopsHoldOnlyLast(ps, n) && 1 <= n <= U64_MAX
    ensures AllOrdered(ps) && CountOf(Covered(ps), PartitionOf(k, n)) <= Visits(ps, k)
    ensures k != PUBKEY_SIZE - 1 ==> Visits(ps, k) == CountOf(Covered(ps), PartitionOf(k, n))
  {
    if ps != [] {
      VisitsAreCounted(ps[1..], n, k);
      RangeMatchesEndIndexes(ps[0], k);
      CountConcat(EndIndexes(ps[0]), Covered(ps[1..]), PartitionOf(k, n));
    }
  }

  lemma PairsAreValid(slot: Slot, parent: Slot, n: nat)
    requires 1 <= n <= U64_MAX && parent < slot
    ensures var ps := PartitionsBetween(slot, parent, n); AllValid(ps) && NoopsHoldOnlyLast(ps, n)
  {
    CyclesOrdered(slot, parent, n);
  }

  ghost function VisitsBetween(slot: Slot, parent: Slot, n: nat, k: Pubkey): (r: nat)
    requires 1 <= n <= U64_MAX && parent < slot
  {
    PairsAreValid(slot, parent, n);
    Visits(PartitionsBetween(slot, parent, n), k)
  }

  lemma StepVisits(slot: Slot, parent: Slot, n: nat, k: Pubkey)
    requires 1 <= n <= U64_MAX && parent < slot
    ensures CountOf(CoveredBetween(slot, parent, n), PartitionOf(k, n)) <= VisitsBetween(slot, parent, n, k)
    ensures k != PUBKEY_SIZE - 1 ==>
              VisitsBetween(slot, parent, n, k) == CountOf(CoveredBetween(slot, parent, n), PartitionOf(k, n))
  {
    PairsAreValid(slot, parent, n);
    VisitsAreCounted(PartitionsBetween(slot, parent, n), n, k);
  }

  ghost function Sum(visits: seq<nat>): (r: nat) {
    if visits == [] then 0 else Sum(visits[..|visits| - 1]) + visits[|visits| - 1]
  }

  /** The visits of a pubkey by the slots behind the first of the chain. */
  ghost function ChainVisits(slots: seq<Slot>, n: nat, k: Pubkey): (r: nat)
    requires 1 <= n <= U64_MAX && IsChain(slots)
  {
    Sum(seq(|slots| - 1, i requires 0 <= i < |slots| - 1 => VisitsBetween(slots[i + 1], slots[i], n, k)))
  }

  lemma {:induction false} SumOfCounts(steps: seq<seq<nat>>, visits: seq<nat>, c: nat)
    requires |steps| == |visits|
    requires forall i :: 0 <= i < |steps| ==> CountOf(steps[i], c) <= visits[i]
    ensures CountOf(Flat(steps), c) <= Sum(visits)
    ensures (forall i :: 0 <= i < |steps| ==> visits[i] == CountOf(steps[i], c)) ==>
              Sum(visits) == CountOf(Flat(steps), c)
    decreases |steps|
  {
    if steps != [] {
      var m := |steps| - 1;
      SumOfCounts(steps[..m], visits[..m], c);
      CountConcat(Flat(steps[..m]), steps[m], c);
    }
  }

  lemma ChainVisitsAreCounted(slots: seq<Slot>, n: nat, k: Pubkey)
    requires 1 <= n <= U64_MAX && IsChain(slots)
    ensures CountOf(Walk(slots, n), PartitionOf(k, n)) <= ChainVisits(slots, n, k)
    ensures k != PUBKEY_SIZE - 1 ==> ChainVisits(slots, n, k) == CountOf(Walk(slots, n), PartitionOf(k, n))
  {
    var steps, c := Steps(slots, n), PartitionOf(k, n);
    var visits := seq(|slots| - 1, i requires 0 <= i < |slots| - 1 => VisitsBetween(slots[i + 1], slots[i], n, k));
    forall i | 0 <= i < |steps|
      ensures CountOf(steps[i], c) <= visits[i]
      ensures k != PUBKEY_SIZE - 1 ==> visits[i] == CountOf(steps[i], c)
    {
      StepVisits(slots[i + 1], slots[i], n, k);
    }
    SumOfCounts(steps, visits, c);
  }

  /**
   * Over the n slots of one cycle, wherever it starts, an exact chain visits
   * every pubkey, and all but the very last pubkey exactly once.
   */
  lemma OnceEachCycle(slots: seq<Slot>, n: nat, k: Pubkey)
    requires 1 <= n <= U64_MAX && IsChain(slots)
    requires AllExact(slots, n) && slots[|slots| - 1] == slots[0] + n
    ensures ChainVisits(slots, n, k) >= 1
    ensures k != PUBKEY_SIZE - 1 ==> ChainVisits(slots, n, k) == 1
  {
    WalkExactly(slots, n);
    CountCycle(slots[0] + 1, n, PartitionOf(k, n));
    ChainVisitsAreCounted(slots, n, k);
  }
}
