/** A set of slots kept as a window of bits that rolls forward, with the few slots below the window
    in a separate set. It should behave like a set. */
module RollingBitField {
  import opened Arith
  import opened Common

  lemma ModInjective(a: nat, b: nat, w: nat)
    requires w > 0 && a <= b < a + w
    ensures a % w == b % w ==> a == b
  {
    DivBounds(a, w);
    DivBounds(b, w);
    MulGap(a / w, b / w, w);
    MulGap(b / w, a / w, w);
    assert a == (a / w) * w + a % w && b == (b / w) * w + b % w;
  }

  lemma ModShift(k: nat, w: nat)
    requires 0 < w <= k
    ensures (k - w) % w == k % w
  {
    var q := k / w;
    DivBounds(k, w);
    MulGap(1, q, w);
    MulGap(q, 0, w);
    assert k == q * w + k % w;
    assert (q - 1) * w == q * w - w;
    DivIs(k - w, w, q - 1);
  }

  /** The keys from lo up to hi whose bit is set. */
  ghost function BitSet(bits: seq<bool>, lo: nat, hi: nat): (r: set<nat>)
    requires |bits| > 0
  {
    set k | lo <= k < hi && bits[k % |bits|]
  }

  /** A window no wider than the bits, and nothing set beyond it. */
  ghost predicate Window(bits: seq<bool>, lo: nat, hi: nat) {
    && |bits| > 0
    && lo <= hi <= lo + |bits|
    && forall k {:trigger bits[k % |bits|]} :: hi <= k < lo + |bits| ==> !bits[k % |bits|]
  }

  /** Every key of the window has its own bit. */
  lemma OwnBit(w: nat, lo: nat, j: nat, k: nat)
    requires w > 0 && lo <= j < lo + w && lo <= k < lo + w
    ensures j % w == k % w <==> j == k
  {
    if j <= k { ModInjective(j, k, w); } else { ModInjective(k, j, w); }
  }

  lemma ClearBit(bits: seq<bool>, lo: nat, hi: nat, key: nat)
    requires Window(bits, lo, hi) && lo <= key < hi
    ensures Window(bits[key % |bits| := false], lo, hi)
    ensures BitSet(bits[key % |bits| := false], lo, hi) == BitSet(bits, lo, hi) - {key}
  {
    forall k | lo <= k < lo + |bits| ensures k % |bits| == key % |bits| <==> k == key { OwnBit(|bits|, lo, k, key); }
  }

  /** Setting a bit in the window, or beyond its end, which then moves. */
  lemma SetBit(bits: seq<bool>, lo: nat, hi: nat, key: nat, hi': nat)
    requires Window(bits, lo, hi) && lo <= key < lo + |bits|
    requires hi' == if key < hi then hi else key + 1
    ensures Window(bits[key % |bits| := true], lo, hi')
    ensures BitSet(bits[key % |bits| := true], lo, hi') == BitSet(bits, lo, hi) + {key}
  {
    forall k | lo <= k < lo + |bits| ensures k % |bits| == key % |bits| <==> k == key { OwnBit(|bits|, lo, k, key); }
  }

  /** The first bit of a new window, when no bit is set. */
  lemma OnlyBit(bits: seq<bool>, lo: nat, hi: nat, key: nat)
    requires Window(bits, lo, hi) && BitSet(bits, lo, hi) == {}
    ensures Window(bits[key % |bits| := true], key, key + 1)
    ensures BitSet(bits[key % |bits| := true], key, key + 1) == {key}
    ensures !bits[key % |bits|]
  {
    NoBits(bits, lo, hi);
    forall k | key <= k < key + |bits| ensures k % |bits| == key % |bits| <==> k == key { OwnBit(|bits|, key, k, key); }
  }

  lemma NoBits(bits: seq<bool>, lo: nat, hi: nat)
    requires Window(bits, lo, hi) && BitSet(bits, lo, hi) == {}
    ensures forall i :: 0 <= i < |bits| ==> !bits[i]
  {
    forall i | 0 <= i < |bits| ensures !bits[i] {
      var k := KeyOfAddress(lo, |bits|, i);
      assert k !in BitSet(bits, lo, hi);
    }
  }

  /** Every address is that of one key from lo up to lo + w. */
  lemma KeyOfAddress(lo: nat, w: nat, i: nat) returns (k: nat)
    requires i < w
    ensures lo <= k < lo + w && k % w == i
  {
    DivBounds(lo, w);
    var q := lo / w;
    k := q * w + i;
    if k < lo { k := k + w; }
    assert (q + 1) * w == q * w + w;
    DivIs(q * w + i, w, q);
    DivIs((q + 1) * w + i, w, q + 1);
  }

  /** Moving the start of the window over clear bits changes nothing. */
  lemma MoveStart(bits: seq<bool>, lo: nat, lo': nat, hi: nat)
    requires Window(bits, lo, hi) && lo <= lo' <= hi
    requires forall k {:trigger bits[k % |bits|]} :: lo <= k < lo' ==> !bits[k % |bits|]
    ensures Window(bits, lo', hi)
    ensures BitSet(bits, lo', hi) == BitSet(bits, lo, hi)
  {
    forall k {:trigger bits[k % |bits|]} | hi <= k < lo' + |bits| ensures !bits[k % |bits|] {
      if lo + |bits| <= k {
        ModShift(k, |bits|);
        assert !bits[(k - |bits|) % |bits|];
      }
    }
  }

  class RollingBitField {
    const maxWidth: nat
    const bits: array<bool>
    var min: nat
    var maxExclusive: nat
    var count: nat
    var excess: set<nat>

    /** The set that the bit field stands for. */
    ghost function Contents(): (r: set<nat>)
      requires bits.Length > 0
      reads this, bits
    {
      BitSet(bits[..], min, maxExclusive) + excess
    }

    ghost predicate Valid()
      reads this, bits
    {
      && bits.Length == maxWidth
      && Window(bits[..], min, maxExclusive)
      && (min < maxExclusive ==> bits[min % maxWidth])
      && (forall e :: e in excess ==> e < min && e + 1 < maxExclusive)
      && count == |BitSet(bits[..], min, maxExclusive)| + |excess|
    }

    constructor (maxWidth: nat)
      requires maxWidth > 0
      ensures Valid() && Contents() == {} && maxExclusive == 0 && this.maxWidth == maxWidth && fresh(bits)
    {
      this.maxWidth := maxWidth;
      bits := new bool[maxWidth](_ => false);
      min, maxExclusive, count, excess := 0, 0, 0, {};
    }

    /** The answer of `contains`, in any state. */
    predicate Has(key: nat)
      requires bits.Length > 0
      reads this, bits
    {
      key < maxExclusive && if key >= min then bits[key % bits.Length] else key in excess
    }

    /** In a valid state the answers are those of the set. */
    lemma HasIsMember(key: nat)
      requires Valid()
      ensures Has(key) <==> key in Contents()
    {
    }

    method Contains(key: nat) returns (r: bool)
      requires Valid()
      ensures r <==> key in Contents()
    {
      r := key < maxExclusive && if key >= min then bits[key % maxWidth] else key in excess;
    }

    function MaxInclusive(): (r: nat)
      reads this
    {
      if maxExclusive == 0 then 0 else maxExclusive - 1
    }

    predicate AllItemsInExcess()
      reads this
    {
      |excess| == count
    }

    /** Moves min to the lowest key in the bits, or to the end of the window if there is none.
        `key` was just taken out of the bits. */
    method Purge(key: nat)
      requires bits.Length == maxWidth && Window(bits[..], min, maxExclusive)
      requires min <= key < maxExclusive && !bits[key % maxWidth]
      requires key != min ==> bits[min % maxWidth]
      requires count == |BitSet(bits[..], min, maxExclusive)| + |excess|
      modifies this`min
      ensures Window(bits[..], min, maxExclusive)
      ensures BitSet(bits[..], min, maxExclusive) == old(BitSet(bits[..], min, maxExclusive))
      ensures old(min) <= min && (key == old(min) ==> old(min) < min)
      ensures min < maxExclusive ==> bits[min % maxWidth]
      ensures BitSet(bits[..], min, maxExclusive) == {} ==> min == maxExclusive
    {
      ghost var set0 := BitSet(bits[..], min, maxExclusive);
      var k := min;
      if count > 0 && !AllItemsInExcess() {
        assert set0 != {};
        if key == min {
          k := min + 1;
          while k < maxExclusive && !bits[k % maxWidth]
            invariant min < k <= maxExclusive
            invariant forall j {:trigger bits[j % maxWidth]} :: min <= j < k ==> !bits[j % maxWidth]
          {
            k := k + 1;
          }
        }
      } else {
        assert |set0| == 0;
        forall j {:trigger bits[j % maxWidth]} | min <= j < maxExclusive ensures !bits[j % maxWidth] {
          assert j !in set0;
        }
        k := maxExclusive;
      }
      MoveStart(bits[..], min, k, maxExclusive);
      min := k;
    }

    /** Takes a key out of the bits. */
    method TakeBit(key: nat)
      requires Valid()
      requires min <= key < maxExclusive && bits[key % maxWidth]
      modifies this`count, this`min, bits
      ensures Valid()
      ensures BitSet(bits[..], min, maxExclusive) == old(BitSet(bits[..], min, maxExclusive)) - {key}
    {
      ghost var before := bits[..];
      ClearBit(before, min, maxExclusive, key);
      OwnBit(maxWidth, min, min, key);
      assert key in BitSet(before, min, maxExclusive);
      count := count - 1;
      bits[key % maxWidth] := false;
      assert bits[..] == before[key % maxWidth := false];
      Purge(key);
    }

    /** Takes a key out of the excess. */
    method TakeExcess(key: nat)
      requires Valid()
      requires key in excess
      modifies this`count, this`excess
      ensures Valid()
      ensures excess == old(excess) - {key}
    {
      excess := excess - {key};
      count := count - 1;
    }

    /** Removes a key and tells whether it was there. */
    method Remove(key: nat) returns (removed: bool)
      requires Valid()
      modifies this, bits
      ensures Valid()
      ensures removed <==> key in old(Contents())
      ensures Contents() == old(Contents()) - {key}
      ensures maxExclusive == old(maxExclusive) && excess == old(excess) - {key}
    {
      HasIsMember(key);
      removed := Has(key);
      if removed {
        if key >= min {
          TakeBit(key);
        } else {
          TakeExcess(key);
        }
      }
    }

    // ----- insertion -----

    /** Valid, except that keys may have moved to the excess right up to the window's end. */
    ghost predicate Shifting()
      reads this, bits
    {
      && bits.Length == maxWidth
      && Window(bits[..], min, maxExclusive)
      && (min < maxExclusive ==> bits[min % maxWidth])
      && (forall e :: e in excess ==> e < min)
      && count == |BitSet(bits[..], min, maxExclusive)| + |excess|
    }

    /** Moves the lowest key of the window to the excess. */
    method MoveMinToExcess()
      requires Shifting() && min < maxExclusive
      modifies this`min, this`excess, bits
      ensures Shifting() && old(min) < min
      ensures Contents() == old(Contents())
      ensures excess == old(excess) + {old(min)}
    {
      ghost var before := bits[..];
      var key := min;
      ClearBit(before, min, maxExclusive, key);
      assert key in BitSet(before, min, maxExclusive);
      excess := excess + {key};
      bits[key % maxWidth] := false;
      assert bits[..] == before[key % maxWidth := false];
      Purge(key);
    }

    /** Moves keys to the excess until `key` fits into the window, or the window is empty. */
    method MakeRoom(key: nat)
      requires Shifting() && min < maxExclusive <= key
      modifies this`min, this`excess, bits
      ensures Shifting() && Contents() == old(Contents())
      ensures min < maxExclusive ==> key < min + maxWidth
      ensures forall e :: e in excess ==> e in old(excess) || e < maxExclusive
    {
      while key + 1 - min > maxWidth
        invariant Shifting() && Contents() == old(Contents()) && min < maxExclusive
        invariant forall e :: e in excess ==> e in old(excess) || e < maxExclusive
        decreases maxExclusive - min
      {
        MoveMinToExcess();
        if AllItemsInExcess() {
          EmptyWindow();
          break;
        }
        NonEmptyWindow();
      }
    }

    lemma EmptyWindow()
      requires Shifting()
      requires AllItemsInExcess()
      ensures min == maxExclusive && BitSet(bits[..], min, maxExclusive) == {}
    {
      assert |BitSet(bits[..], min, maxExclusive)| == 0;
      assert min !in BitSet(bits[..], min, maxExclusive);
    }

    lemma NonEmptyWindow()
      requires Shifting()
      requires !AllItemsInExcess()
      ensures min < maxExclusive
    {
      assert min == maxExclusive ==> BitSet(bits[..], min, maxExclusive) == {};
    }

    /** The keys for which `contains` answers yes, in any state. */
    ghost function Answered(): (r: set<nat>)
      requires bits.Length > 0
      reads this, bits
    {
      set k | 0 <= k < maxExclusive && Has(k)
    }

    /** In a valid state `len` counts the keys that `contains` knows. */
    lemma ValidCounts()
      requires Valid()
      ensures Answered() == Contents() && count == |Answered()|
    {
      forall k: nat ensures k in Answered() <==> k in Contents() { HasIsMember(k); }
      assert BitSet(bits[..], min, maxExclusive) !! excess;
      assert |BitSet(bits[..], min, maxExclusive) + excess| == |BitSet(bits[..], min, maxExclusive)| + |excess|;
    }

    /** Starts a new window at `key` while no bit is set. */
    method StartWindow(key: nat)
      requires Shifting() && AllItemsInExcess()
      modifies this`min, this`maxExclusive, this`count, bits
      ensures min == key && maxExclusive == key + 1 && count == |excess| + 1
      ensures bits.Length == maxWidth && Window(bits[..], min, maxExclusive) && bits[key % maxWidth]
      ensures BitSet(bits[..], min, maxExclusive) == {key}
    {
      ghost var before := bits[..];
      EmptyWindow();
      OnlyBit(before, min, maxExclusive, key);
      bits[key % maxWidth] := true;
      assert bits[..] == before[key % maxWidth := true];
      min, maxExclusive, count := key, key + 1, count + 1;
    }

    /** Sets the bit of a key that fits into the window. */
    method PutBit(key: nat)
      requires Shifting() && min < maxExclusive && min <= key < min + maxWidth
      modifies this`maxExclusive, this`count, bits
      ensures Shifting()
      ensures BitSet(bits[..], min, maxExclusive) == old(BitSet(bits[..], min, maxExclusive)) + {key}
      ensures maxExclusive == if key < old(maxExclusive) then old(maxExclusive) else key + 1
    {
      ghost var before := bits[..];
      if bits[key % maxWidth] {
        assert key in BitSet(before, min, maxExclusive);
        return;
      }
      SetBit(before, min, maxExclusive, key, if key < maxExclusive then maxExclusive else key + 1);
      OwnBit(maxWidth, min, min, key);
      assert key !in BitSet(before, min, maxExclusive);
      bits[key % maxWidth] := true;
      assert bits[..] == before[key % maxWidth := true];
      if maxExclusive < key + 1 { maxExclusive := key + 1; }
      count := count + 1;
    }

    /** A key below the window goes to the excess. */
    method InsertBelow(key: nat)
      requires Valid() && key < min < maxExclusive
      modifies this`excess, this`count
      ensures Valid() && Contents() == old(Contents()) + {key}
    {
      if key !in excess {
        excess := excess + {key};
        count := count + 1;
      }
    }

    /** A key within the window only needs its bit. */
    method InsertWithin(key: nat)
      requires Valid() && min <= key < maxExclusive
      modifies this`maxExclusive, this`count, bits
      ensures Valid() && Contents() == old(Contents()) + {key} && maxExclusive == old(maxExclusive)
    {
      PutBit(key);
    }

    /** A key beyond the window goes to the bits, once there is room. */
    method InsertBeyond(key: nat)
      requires Valid() && min < maxExclusive <= key
      modifies this, bits
      ensures Valid() && Contents() == old(Contents()) + {key} && maxExclusive == key + 1
      ensures key >= old(maxExclusive) + maxWidth ==> excess == old(Contents())
    {
      MakeRoom(key);
      if AllItemsInExcess() {
        EmptyWindow();
        StartWindow(key);
      } else {
        NonEmptyWindow();
        PutBit(key);
      }
    }

    /** The first key of an empty window. */
    method InsertFirst(key: nat)
      requires Valid() && AllItemsInExcess()
      modifies this, bits
      ensures maxExclusive == key + 1 && excess == old(excess) && bits.Length > 0
      ensures InsertsProperly(true, excess, key) ==> Valid() && Contents() == old(Contents()) + {key}
      ensures InsertsProperly(true, excess, key) <==> count == |Answered()|
    {
      EmptyWindow();
      StartWindow(key);
      if InsertsProperly(true, excess, key) { ValidCounts(); } else { Miscounted(); }
    }

    /** A key when the window is not empty. */
    method InsertNext(key: nat)
      requires Valid() && !AllItemsInExcess()
      modifies this, bits
      ensures Valid() && Contents() == old(Contents()) + {key}
      ensures maxExclusive == if key >= old(maxExclusive) then key + 1 else old(maxExclusive)
      ensures key >= old(maxExclusive) + maxWidth ==> excess == old(Contents())
    {
      NonEmptyWindow();
      if key < min {
        InsertBelow(key);
      } else if key < maxExclusive {
        InsertWithin(key);
      } else {
        InsertBeyond(key);
      }
    }

    /** Inserts a key. This works like a set unless the window is empty and some key in the excess is
        not below the new one; then `len` no longer counts the keys that `contains` knows. */
    method Insert(key: nat)
      requires Valid()
      modifies this, bits
      ensures InsertsProperly(old(AllItemsInExcess()), old(excess), key) ==>
                && Valid() && Contents() == old(Contents()) + {key}
                && maxExclusive ==
                  if old(AllItemsInExcess()) || key >= old(maxExclusive) then key + 1 else old(maxExclusive)
      ensures bits.Length > 0 && (InsertsProperly(old(AllItemsInExcess()), old(excess), key) <==> count == |Answered()|)
      ensures old(AllItemsInExcess()) ==> excess == old(excess)
      ensures !old(AllItemsInExcess()) && key >= old(maxExclusive) + maxWidth ==> excess == old(Contents())
    {
      if AllItemsInExcess() {
        InsertFirst(key);
      } else {
        InsertNext(key);
        ValidCounts();
      }
    }

    /** Keys that are inserted in order are always inserted properly, and the maximum never falls. */
    lemma InOrderIsProper(key: nat)
      requires Valid() && key >= MaxInclusive()
      ensures InsertsProperly(AllItemsInExcess(), excess, key)
    {
    }

    static predicate InsertsProperly(windowEmpty: bool, excess: set<nat>, key: nat) {
      windowEmpty ==> forall e :: e in excess ==> e < key
    }

    lemma OnlyExcess()
      requires Valid() && Contents() == excess
      ensures AllItemsInExcess()
    {
      var window := BitSet(bits[..], min, maxExclusive);
      assert window !! excess;
      assert window <= Contents();
      assert window == {};
    }

    /** A window that starts at or below a key of the excess hides it, or counts it twice. */
    lemma Miscounted()
      requires bits.Length > 0 && maxExclusive == min + 1 && count == |excess| + 1
      requires exists e :: e in excess && e >= min
      ensures count > |Answered()|
    {
      var e :| e in excess && e >= min;
      var rest := excess - {e};
      assert Answered() <= rest + {min};
      assert |rest + {min}| <= |excess|;
      SubsetSize(Answered(), rest + {min});
    }
  }

  /** Three calls that leave one key, and that one in the excess. */
  method OnlyExcessLeft() returns (field: RollingBitField)
    ensures field.Valid() && field.AllItemsInExcess() && field.excess == {0}
    ensures fresh(field) && fresh(field.bits)
  {
    field := new RollingBitField(2);
    field.Insert(0);
    assert 0 in field.Contents() && 0 !in field.excess;
    field.Insert(10);
    assert field.excess == {0};
    var removed := field.Remove(10);
    field.OnlyExcess();
  }

  /** A fourth call, after which the bit field holds one key but counts two. */
  method MiscountExample() returns (field: RollingBitField)
    ensures field.bits.Length > 0 && field.count != |field.Answered()|
  {
    field := OnlyExcessLeft();
    field.Insert(0);
  }
}
