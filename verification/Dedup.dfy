/** The workers that find, bin by bin, the newest version of every account in pubkey order. */
module Dedup {
  import opened Arith
  import opened Common
  import opened Search
  import opened SlotGroups
  import opened Merge

  ghost predicate Monotone(bin: Pubkey -> nat) {
    forall j: Pubkey, k: Pubkey :: j <= k ==> bin(j) <= bin(k)
  }

  // ----- where a bin lies in a sorted group -----

  /** How many items at the front of the group are in bins below b. */
  ghost function Below<H>(group: seq<Item<H>>, bin: Pubkey -> nat, b: nat): (r: nat)
    ensures r <= |group|
    ensures forall i :: 0 <= i < r ==> bin(group[i].pubkey) < b
    ensures r < |group| ==> bin(group[r].pubkey) >= b
  {
    if group == [] then 0
    else if bin(group[0].pubkey) < b then
      var rest := Below(group[1..], bin, b);
      assert forall i :: 1 <= i < rest + 1 ==> group[i] == group[1..][i - 1];
      1 + rest
    else 0
  }

  lemma BelowSplits<H>(group: seq<Item<H>>, bin: Pubkey -> nat, b: nat)
    requires SortedGroup(group) && Monotone(bin)
    ensures forall i :: Below(group, bin, b) <= i < |group| ==> bin(group[i].pubkey) >= b
    ensures Below(group, bin, b) <= Below(group, bin, b + 1)
  {
    var r := Below(group, bin, b);
    forall i | r <= i < |group| ensures bin(group[i].pubkey) >= b {
      if r < i { assert group[r].pubkey <= group[i].pubkey; }
    }
    var r' := Below(group, bin, b + 1);
  }

  /** `v` shows bin b of the groups: in every group exactly the items of that bin. */
  ghost predicate Shows<H>(v: View<H>, bin: Pubkey -> nat, b: nat) {
    && v.Valid()
    && forall g, o :: 0 <= g < |v.groups| && 0 <= o < |v.groups[g]| ==>
         && (bin(v.groups[g][o].pubkey) == b <==> v.first[g] <= o < v.ends[g])
         && (bin(v.groups[g][o].pubkey) <= b <==> o < v.ends[g])
  }

  ghost function ViewOf<H>(groups: seq<seq<Item<H>>>, bin: Pubkey -> nat, b: nat): (v: View<H>)
    requires SortedGroups(groups) && Monotone(bin)
    ensures v.groups == groups && Shows(v, bin, b)
  {
    var first := seq(|groups|, g requires 0 <= g < |groups| => Below(groups[g], bin, b));
    var ends := seq(|groups|, g requires 0 <= g < |groups| => Below(groups[g], bin, b + 1));
    assert forall g :: 0 <= g < |groups| ==> first[g] <= ends[g] by {
      forall g | 0 <= g < |groups| ensures first[g] <= ends[g] { BelowSplits(groups[g], bin, b); }
    }
    var v := View(groups, first, ends);
    ViewShows(v, bin, b);
    v
  }

  lemma ViewShows<H>(v: View<H>, bin: Pubkey -> nat, b: nat)
    requires SortedGroups(v.groups) && Monotone(bin)
    requires |v.first| == |v.ends| == |v.groups|
    requires forall g :: 0 <= g < |v.groups| ==>
               v.first[g] == Below(v.groups[g], bin, b) && v.ends[g] == Below(v.groups[g], bin, b + 1)
    ensures Shows(v, bin, b)
  {
    forall g, o | 0 <= g < |v.groups| && 0 <= o < |v.groups[g]|
      ensures bin(v.groups[g][o].pubkey) == b <==> v.first[g] <= o < v.ends[g]
      ensures bin(v.groups[g][o].pubkey) <= b <==> o < v.ends[g]
    {
      BelowSplits(v.groups[g], bin, b);
      BelowSplits(v.groups[g], bin, b + 1);
    }
    forall g | 0 <= g < |v.groups| ensures v.first[g] <= v.ends[g] <= |v.groups[g]| {
      BelowSplits(v.groups[g], bin, b);
    }
    forall g, i, j | 0 <= g < |v.groups| && 0 <= i < v.ends[g] <= j < |v.groups[g]|
      ensures v.groups[g][i].pubkey < v.groups[g][j].pubkey
    {
      assert bin(v.groups[g][i].pubkey) <= b < bin(v.groups[g][j].pubkey);
    }
  }

  // ----- the first item of a bin -----

  /** r is the first item of bin b, if there is one. */
  ghost predicate FirstInBin<H>(group: seq<Item<H>>, bin: Pubkey -> nat, b: nat, r: Option<nat>) {
    match r
    case Some(i) => i < |group| && bin(group[i].pubkey) == b && forall j :: 0 <= j < i ==> bin(group[j].pubkey) < b
    case None => forall j :: 0 <= j < |group| ==> bin(group[j].pubkey) != b
  }

  /** Binary search for the first item of bin b: bins are doubled so that no item compares equal. */
  method BinarySearchForFirstPubkeyInBin<H>(group: seq<Item<H>>, bin: Pubkey -> nat, b: nat) returns (r: Option<nat>)
    requires SortedGroup(group) && Monotone(bin)
    ensures FirstInBin(group, bin, b, r)
  {
    var potential := 0;
    if b != 0 {
      var cmp := (item: Item<H>) => 1 + 2 * bin(item.pubkey) - 2 * b;
      assert Ordered(group, cmp);
      var search := BinarySearchBy(group, cmp);
      potential := search.index;
    }
    if potential < |group| && bin(group[potential].pubkey) == b {
      r := Some(potential);
    } else {
      r := None;
      forall i | 0 <= i < |group| ensures bin(group[i].pubkey) != b {
        if potential < i { assert group[potential].pubkey <= group[i].pubkey; }
      }
    }
  }

  /** When item i is in bin b or above, the first item of bin b is at i or before. */
  lemma FirstInFront<H>(group: seq<Item<H>>, bin: Pubkey -> nat, b: nat, i: nat, r: Option<nat>)
    requires SortedGroup(group) && Monotone(bin)
    requires i < |group| && bin(group[i].pubkey) >= b
    requires FirstInBin(group[0..i + 1], bin, b, r)
    ensures FirstInBin(group, bin, b, r)
  {
    if r.None? {
      forall j | 0 <= j < |group| ensures bin(group[j].pubkey) != b {
        if j <= i {
          assert group[0..i + 1][j] == group[j];
        } else {
          assert group[0..i + 1][i] == group[i];
          assert group[i].pubkey <= group[j].pubkey;
        }
      }
    } else {
      forall j | 0 <= j < r.value ensures bin(group[j].pubkey) < b { assert group[0..i + 1][j] == group[j]; }
    }
  }

  /** When item i is below bin b, the first item of bin b is after i. */
  lemma FirstBehind<H>(group: seq<Item<H>>, bin: Pubkey -> nat, b: nat, i: nat, r: Option<nat>)
    requires SortedGroup(group) && Monotone(bin)
    requires i < |group| && bin(group[i].pubkey) < b
    requires FirstInBin(group[i + 1..|group|], bin, b, r)
    ensures FirstInBin(group, bin, b, if r.Some? then Some(i + 1 + r.value) else None)
  {
    forall j | 0 <= j < |group|
      ensures j <= i ==> bin(group[j].pubkey) < b
      ensures i < j ==> group[i + 1..|group|][j - (i + 1)] == group[j]
    {
      if j < i { assert group[j].pubkey <= group[i].pubkey; }
    }
  }

  lemma SortedSlice<H>(group: seq<Item<H>>, lo: nat, hi: nat)
    requires SortedGroup(group)
    requires lo <= hi <= |group|
    ensures SortedGroup(group[lo..hi])
  {
  }

  /** The same, on the part of the group that a guess by interpolation leaves. */
  method FindFirstPubkeyInBin<H>(group: seq<Item<H>>, bin: Pubkey -> nat, b: nat, bins: nat) returns (r: Option<nat>)
    requires SortedGroup(group) && Monotone(bin)
    requires b < bins
    ensures FirstInBin(group, bin, b, r)
  {
    if |group| == 0 { return None; }
    GuessInRange(|group|, b, bins);
    var i := |group| * b / bins;
    var lo, hi := 0, i + 1;
    if bin(group[i].pubkey) < b {
      lo, hi := i + 1, |group|;
    }
    SortedSlice(group, lo, hi);
    var found := BinarySearchForFirstPubkeyInBin(group[lo..hi], bin, b);
    if bin(group[i].pubkey) < b {
      FirstBehind(group, bin, b, i, found);
    } else {
      FirstInFront(group, bin, b, i, found);
    }
    r := if found.Some? then Some(lo + found.value) else None;
  }

  lemma GuessInRange(len: nat, b: nat, bins: nat)
    requires b < bins && 0 < len
    ensures 0 <= len * b / bins < len
  {
    MulGap(b, bins, len);
    DivBelow(len * b, len, bins);
  }

  // ----- the merge -----

  function KeyOf<H>(groups: seq<seq<Item<H>>>, p: Pointer): (r: Pubkey)
    ensures p.group < |groups| && p.offset < |groups[p.group]| ==> r == groups[p.group][p.offset].pubkey
  {
    if p.group < |groups| && p.offset < |groups[p.group]| then groups[p.group][p.offset].pubkey else 0
  }

  /** The next pointer of group q, when it has been read up to position o. */
  ghost function NextPointer<H>(v: View<H>, q: nat, o: nat): (r: Option<Pointer>)
    requires q < |v.ends|
  {
    if o < v.ends[q] then Some(Pointer(q, o)) else None
  }

  /** The last entry of the pubkey at `p`, and where the next pubkey of the bin is in that group. */
  method GetItem<H>(groups: seq<seq<Item<H>>>, bin: Pubkey -> nat, b: nat, p: Pointer, ghost v: View<H>)
    returns (item: Item<H>, next: Option<Pointer>)
    requires v.groups == groups && Shows(v, bin, b)
    requires p.group < |groups| && p.offset < v.ends[p.group]
    ensures var e := RunEnd(groups[p.group], p.offset);
            item == groups[p.group][e - 1] && next == NextPointer(v, p.group, e)
  {
    var data := groups[p.group];
    var key := data[p.offset].pubkey;
    var index := p.offset + 1;
    next := None;
    while index < |data|
      invariant p.offset < index <= |data|
      invariant forall i :: p.offset <= i < index ==> data[i].pubkey == key
      invariant next.None?
    {
      var nextKey := data[index].pubkey;
      if nextKey == key {
        index := index + 1;
      } else {
        if bin(nextKey) <= b {
          next := Some(Pointer(p.group, index));
        }
        break;
      }
    }
    RunEndIs(data, p.offset, index);
    item := data[index - 1];
  }

  /** The keys of a working set descend, so its pointers are ordered against any key. */
  lemma WorkingSetOrdered<H>(v: View<H>, ws: seq<Pointer>, pos: seq<nat>, pending: Option<nat>, key: Pubkey)
    requires v.Frontier(pos) && v.Represents(ws, pos, pending)
    ensures Ordered(ws, (p: Pointer) => key - KeyOf(v.groups, p))
  {
    forall i, j | 0 <= i < j < |ws| ensures KeyOf(v.groups, ws[j]) < KeyOf(v.groups, ws[i]) {
      assert v.Key(ws[j].group, ws[j].offset) < v.Key(ws[i].group, ws[i].offset);
    }
  }

  /** Where a key is in the working set, or where it belongs. */
  method FindPlace<H>(groups: seq<seq<Item<H>>>, key: Pubkey, ws: seq<Pointer>,
                      ghost v: View<H>, ghost pos: seq<nat>, ghost pending: Option<nat>) returns (r: SearchResult)
    requires v.groups == groups && v.Frontier(pos) && v.Represents(ws, pos, pending)
    ensures r.Ok? ==> r.index < |ws| && KeyOf(groups, ws[r.index]) == key
    ensures r.Err? ==> r.index <= |ws|
    ensures r.Err? ==> forall j :: 0 <= j < r.index ==> key < KeyOf(groups, ws[j])
    ensures r.Err? ==> forall j :: r.index <= j < |ws| ==> KeyOf(groups, ws[j]) < key
  {
    WorkingSetOrdered(v, ws, pos, pending, key);
    if |ws| > 0 && key < KeyOf(groups, ws[|ws| - 1]) {
      // smaller than the smallest key: no search needed
      return Err(|ws|);
    }
    r := BinarySearchBy(ws, (p: Pointer) => key - KeyOf(groups, p));
  }

  /** Moves a group past the pubkey it is at. */
  method MoveOn<H>(groups: seq<seq<Item<H>>>, bin: Pubkey -> nat, b: nat, p: Pointer, ghost v: View<H>,
                   ghost pos: seq<nat>)
    returns (next: Option<Pointer>, ghost pos': seq<nat>)
    requires v.groups == groups && Shows(v, bin, b)
    requires v.Frontier(pos)
    requires p.group < |groups| && p.offset == pos[p.group] && p.offset < v.ends[p.group]
    ensures pos' == pos[p.group := RunEnd(groups[p.group], p.offset)]
    ensures next == NextPointer(v, p.group, pos'[p.group])
    ensures v.Remaining(pos', |pos'|) < v.Remaining(pos, |pos|)
  {
    v.Advance(pos, p.group);
    var item;
    item, next := GetItem(groups, bin, b, p, v);
    v.RemainingUpdate(pos, p.group, RunEnd(groups[p.group], p.offset), |pos|);
    pos' := pos[p.group := RunEnd(groups[p.group], p.offset)];
  }

  /** A pointer goes where the search of the working set says, or at the end if it is the smallest. */
  lemma InsertWhereFound<H>(v: View<H>, ws: seq<Pointer>, pos: seq<nat>, p: Pointer, index: nat, lo: nat, low: int)
    requires v.Inv(ws, pos, Some(p.group), lo, low)
    requires p.group < |v.groups| && p.offset == pos[p.group] && p.offset < v.ends[p.group]
    requires index <= |ws|
    requires forall j :: 0 <= j < index ==> KeyOf(v.groups, p) < KeyOf(v.groups, ws[j])
    requires forall j :: index <= j < |ws| ==> KeyOf(v.groups, ws[j]) < KeyOf(v.groups, p)
    ensures v.Inv(ws[..index] + [p] + ws[index..], pos, None, lo, low)
  {
    forall j | 0 <= j < |ws| ensures v.Key(ws[j].group, ws[j].offset) == KeyOf(v.groups, ws[j]) {
    }
    v.Insert(ws, pos, p.group, index, lo, low);
  }

  /** One turn of `add_next_item`: the pointer finds its place, or one of two groups moves on. */
  method PlaceItem<H>(groups: seq<seq<Item<H>>>, bin: Pubkey -> nat, b: nat, pointer: Pointer, ws0: seq<Pointer>,
                      ghost v: View<H>, ghost pos0: seq<nat>, ghost lo: nat, ghost low: int)
    returns (placed: bool, next: Option<Pointer>, ws: seq<Pointer>, ghost pos: seq<nat>, ghost q: nat)
    requires v.groups == groups && Shows(v, bin, b)
    requires v.Inv(ws0, pos0, Some(pointer.group), lo, low)
    requires pointer.group < |groups| && pointer.offset == pos0[pointer.group] && pointer.offset < v.ends[pointer.group]
    ensures placed ==> v.Inv(ws, pos, None, lo, low) && pos == pos0
    ensures |pos| == |pos0| && forall g :: 0 <= g < |pos| ==> pos0[g] <= pos[g]
    ensures !placed ==> q < |groups| && v.Inv(ws, pos, Some(q), lo, low) && next == NextPointer(v, q, pos[q])
    ensures !placed ==> v.Remaining(pos, |pos|) < v.Remaining(pos0, |pos0|)
  {
    placed, next, ws, pos, q := true, None, ws0, pos0, pointer.group;
    var found := FindPlace(groups, KeyOf(groups, pointer), ws, v, pos, Some(q));
    if found.Err? {
      InsertWhereFound(v, ws, pos, pointer, found.index, lo, low);
      ws := ws[..found.index] + [pointer] + ws[found.index..];
      return;
    }
    var at := ws[found.index];
    var moving := pointer;
    if at.group > pointer.group {
      v.SkipDominated(ws, pos, q, found.index, lo, low);
    } else {
      v.TakeOver(ws, pos, q, found.index, lo, low);
      moving := at;
      ws := ws[found.index := pointer];
    }
    placed, q := false, moving.group;
    next, pos := MoveOn(groups, bin, b, moving, v, pos);
  }

  /** Strictly descending keys: the smallest is the last. */
  ghost predicate Descending<H>(groups: seq<seq<Item<H>>>, ws: seq<Pointer>) {
    forall i, j :: 0 <= i < j < |ws| ==> KeyOf(groups, ws[j]) < KeyOf(groups, ws[i])
  }

  lemma InvDescends<H>(v: View<H>, ws: seq<Pointer>, pos: seq<nat>, pending: Option<nat>, lo: nat, low: int)
    requires v.Inv(ws, pos, pending, lo, low)
    ensures Descending(v.groups, ws)
  {
  }

  /** Adds the next item of a group to the working set; a group that loses its place moves on. */
  method AddNextItem<H>(groups: seq<seq<Item<H>>>, bin: Pubkey -> nat, b: nat, next0: Option<Pointer>,
                        ws0: seq<Pointer>, ghost v: View<H>, ghost pos0: seq<nat>, ghost q0: nat, ghost lo: nat,
                        ghost low: int)
    returns (ws: seq<Pointer>, ghost pos: seq<nat>)
    requires v.groups == groups && Shows(v, bin, b)
    requires q0 < |groups| && v.Inv(ws0, pos0, Some(q0), lo, low)
    requires next0 == NextPointer(v, q0, pos0[q0])
    ensures v.Inv(ws, pos, None, lo, low) && Descending(groups, ws)
    ensures |pos| == |pos0| && forall g :: 0 <= g < |pos| ==> pos0[g] <= pos[g]
    ensures v.Remaining(pos, |pos|) <= v.Remaining(pos0, |pos0|)
  {
    ws, pos := ws0, pos0;
    var next := next0;
    ghost var q: nat := q0;
    while next.Some?
      invariant q < |groups| && v.Inv(ws, pos, Some(q), lo, low) && next == NextPointer(v, q, pos[q])
      invariant |pos| == |pos0| && forall g :: 0 <= g < |pos| ==> pos0[g] <= pos[g]
      invariant v.Remaining(pos, |pos|) <= v.Remaining(pos0, |pos0|)
      decreases v.Remaining(pos, |pos|)
    {
      v.RemainingNonNegative(pos, |pos|);
      var placed;
      placed, next, ws, pos, q := PlaceItem(groups, bin, b, next.value, ws, v, pos, lo, low);
      if placed {
        InvDescends(v, ws, pos, None, lo, low);
        return;
      }
      v.RemainingNonNegative(pos, |pos|);
    }
    v.Exhausted(ws, pos, q, lo, low);
    InvDescends(v, ws, pos, None, lo, low);
  }

  // ----- the working set at the start -----

  lemma FirstIs<H>(v: View<H>, bin: Pubkey -> nat, b: nat, g: nat, r: Option<nat>)
    requires Shows(v, bin, b) && g < |v.groups|
    requires FirstInBin(v.groups[g], bin, b, r)
    ensures r.Some? <==> v.first[g] < v.ends[g]
    ensures r.Some? ==> r.value == v.first[g]
  {
    if v.first[g] < v.ends[g] {
      assert bin(v.groups[g][v.first[g]].pubkey) == b;
    }
  }

  lemma StartGroup<H>(v: View<H>, ws: seq<Pointer>, pos: seq<nat>, i: nat)
    requires i < |v.groups| && v.Inv(ws, pos, None, i + 1, -1)
    requires pos[i] == v.ends[i] && v.first[i] < v.ends[i]
    ensures v.Inv(ws, pos[i := v.first[i]], Some(i), i, -1)
  {
    var pos' := pos[i := v.first[i]];
    assert v.Frontier(pos');
    assert v.Represents(ws, pos', Some(i)) by {
      forall g | 0 <= g < |v.groups| && Some(g) != Some(i) && pos'[g] < v.ends[g]
        ensures Pointer(g, pos'[g]) in ws
      {
        assert pos'[g] == pos[g];
      }
    }
    forall g: nat, o: nat | i <= g < |v.groups| && v.first[g] <= o < pos'[g]
      ensures v.Key(g, o) <= -1 || v.Dominated(pos', Some(i), g, v.Key(g, o))
    {
      assert v.Dominated(pos, None, g, v.Key(g, o));
      var h: nat :| g < h < |v.groups| && pos[h] < v.ends[h] && v.Key(h, pos[h]) == v.Key(g, o);
      assert pos'[h] == pos[h];
    }
  }

  lemma SkipGroup<H>(v: View<H>, ws: seq<Pointer>, pos: seq<nat>, i: nat)
    requires i < |v.groups| && v.Inv(ws, pos, None, i + 1, -1)
    requires v.first[i] == v.ends[i]
    ensures v.Inv(ws, pos, None, i, -1)
  {
    forall g: nat, o: nat | i <= g < |v.groups| && v.first[g] <= o < pos[g]
      ensures v.Key(g, o) <= -1 || v.Dominated(pos, None, g, v.Key(g, o))
    {
      assert g != i;
    }
  }

  /** How many items of the group, from its first one in the bin on, are in the bin. */
  method CountInBin<H>(group: seq<Item<H>>, bin: Pubkey -> nat, b: nat, first: nat, ghost end: nat) returns (count: nat)
    requires first < end <= |group|
    requires forall i :: 0 <= i < |group| ==> (bin(group[i].pubkey) == b <==> first <= i < end)
    ensures count == end - first
  {
    var next := first + 1;
    while next < |group|
      invariant first < next <= end
    {
      if bin(group[next].pubkey) != b { break; }
      next := next + 1;
    }
    count := next - first;
  }

  /** The items of a group that are in the bin. */
  ghost function CountIn<H>(group: seq<Item<H>>, bin: Pubkey -> nat, b: nat): (count: nat) {
    if group == [] then 0
    else
      var n := |group| - 1;
      CountIn(group[..n], bin, b) + if bin(group[n].pubkey) == b then 1 else 0
  }

  lemma {:induction false} CountIsSpan<H>(group: seq<Item<H>>, bin: Pubkey -> nat, b: nat, first: nat, end: nat)
    requires first <= end && forall i :: 0 <= i < |group| ==> (bin(group[i].pubkey) == b <==> first <= i < end)
    ensures CountIn(group, bin, b) == Min(end, |group|) - Min(first, |group|)
  {
    if group != [] { CountIsSpan(group[..|group| - 1], bin, b, first, end); }
  }

  /** The items of the groups from `i` on that are in the bin. */
  ghost function ItemsFrom<H>(groups: seq<seq<Item<H>>>, bin: Pubkey -> nat, b: nat, i: nat): (count: nat)
    requires i <= |groups|
    decreases |groups| - i
  {
    if i == |groups| then 0 else CountIn(groups[i], bin, b) + ItemsFrom(groups, bin, b, i + 1)
  }

  /** Adds the first item of a group in the bin, if it has one, and counts its items there. */
  method AddGroup<H>(groups: seq<seq<Item<H>>>, bin: Pubkey -> nat, b: nat, bins: nat, ws0: seq<Pointer>, i: nat,
                     ghost v: View<H>, ghost pos0: seq<nat>)
    returns (ws: seq<Pointer>, count: nat, ghost pos: seq<nat>)
    requires Monotone(bin) && b < bins && i < |groups|
    requires v.groups == groups && Shows(v, bin, b) && v.Inv(ws0, pos0, None, i + 1, -1)
    requires forall g :: 0 <= g <= i ==> pos0[g] == v.ends[g]
    ensures v.Inv(ws, pos, None, i, -1) && count == CountIn(groups[i], bin, b)
    ensures forall g :: 0 <= g < i ==> pos[g] == v.ends[g]
    ensures v.Remaining(pos, |pos|) <= v.Remaining(pos0, |pos0|) + count
  {
    assert SortedGroup(groups[i]);
    var first := FindFirstPubkeyInBin(groups[i], bin, b, bins);
    FirstIs(v, bin, b, i, first);
    CountIsSpan(groups[i], bin, b, v.first[i], v.ends[i]);
    if first.None? {
      SkipGroup(v, ws0, pos0, i);
      return ws0, 0, pos0;
    }
    StartGroup(v, ws0, pos0, i);
    ghost var pos1 := pos0[i := v.first[i]];
    v.RemainingUpdate(pos0, i, v.first[i], |pos0|);
    ws, pos := AddNextItem(groups, bin, b, Some(Pointer(i, first.value)), ws0, v, pos1, i, i, -1);
    forall g | 0 <= g < i ensures pos[g] == v.ends[g] {
      assert pos1[g] <= pos[g];
    }
    count := CountInBin(groups[i], bin, b, first.value, v.ends[i]);
  }

  /** The groups from `i` on are in the working set, and their items in the bin are counted. */
  ghost predicate Added<H>(v: View<H>, bin: Pubkey -> nat, b: nat, ws: seq<Pointer>, pos: seq<nat>, i: nat, count: nat)
    requires i <= |v.groups|
  {
    && v.Inv(ws, pos, None, i, -1)
    && (forall g :: 0 <= g < i ==> pos[g] == v.ends[g])
    && count == ItemsFrom(v.groups, bin, b, i)
    && v.Remaining(pos, |pos|) <= count
  }

  lemma NoneAdded<H>(v: View<H>, bin: Pubkey -> nat, b: nat)
    requires Shows(v, bin, b)
    ensures Added(v, bin, b, [], v.ends, |v.groups|, 0)
  {
    AllRead(v, |v.ends|);
  }

  /** The working set with the first item of every group, and the number of items in the bin. */
  method InitializeDedupWorkingSet<H>(groups: seq<seq<Item<H>>>, bin: Pubkey -> nat, b: nat, bins: nat,
                                      ghost v: View<H>)
    returns (ws: seq<Pointer>, maxInclusiveNumPubkeys: nat, ghost pos: seq<nat>)
    requires Monotone(bin) && b < bins
    requires v.groups == groups && Shows(v, bin, b)
    ensures v.Inv(ws, pos, None, 0, -1) && Descending(groups, ws)
    ensures maxInclusiveNumPubkeys == ItemsFrom(groups, bin, b, 0)
    ensures v.Remaining(pos, |pos|) <= maxInclusiveNumPubkeys
  {
    ws, maxInclusiveNumPubkeys, pos := [], 0, v.ends;
    NoneAdded(v, bin, b);
    var i := |groups|;
    while i > 0
      invariant 0 <= i <= |groups|
      invariant Added(v, bin, b, ws, pos, i, maxInclusiveNumPubkeys)
    {
      i := i - 1;
      var count;
      ws, count, pos := AddGroup(groups, bin, b, bins, ws, i, v, pos);
      maxInclusiveNumPubkeys := maxInclusiveNumPubkeys + count;
    }
    InvDescends(v, ws, pos, None, 0, -1);
  }

  lemma {:induction false} AllRead<H>(v: View<H>, n: nat)
    requires n <= |v.ends|
    ensures v.Remaining(v.ends, n) == 0
  {
    if n > 0 { AllRead(v, n - 1); }
  }

  // ----- delivering the winners -----

  /** The smallest key's last entry in its group is the newest version of that account. */
  lemma PopIsNewest<H>(v: View<H>, bin: Pubkey -> nat, b: nat, ws: seq<Pointer>, pos: seq<nat>, low: int)
    requires Shows(v, bin, b) && v.Inv(ws, pos, None, 0, low)
    requires ws != []
    ensures var p := ws[|ws| - 1]; var e := RunEnd(v.groups[p.group], p.offset);
            && bin(v.Key(p.group, p.offset)) == b
            && v.groups[p.group][e - 1].pubkey == v.Key(p.group, p.offset)
            && Newest(v.groups, v.Key(p.group, p.offset)) == Some(v.groups[p.group][e - 1])
  {
    var p := ws[|ws| - 1];
    var group := v.groups[p.group];
    var key := v.Key(p.group, p.offset);
    var e := RunEnd(group, p.offset);
    v.Advance(pos, p.group);
    assert SortedGroup(group);
    forall j | e - 1 < j < |group| ensures group[j].pubkey != key {
      assert group[e].pubkey <= group[j].pubkey;
    }
    forall h, j | p.group < h < |v.groups| && 0 <= j < |v.groups[h]| ensures v.groups[h][j].pubkey != key {
      if v.first[h] <= j < v.ends[h] { v.NothingSkipped(ws, pos, low, h, j); }
    }
    NewestIs(v.groups, p.group, e - 1);
  }

  /** What has been delivered once all keys up to low are done. */
  ghost predicate Delivered<H>(v: View<H>, bin: Pubkey -> nat, b: nat, out: seq<Item<H>>, low: int) {
    && v.Valid()
    && AscendingKeys(out)
    && (forall i :: 0 <= i < |out| ==>
          out[i].pubkey <= low && bin(out[i].pubkey) == b && Newest(v.groups, out[i].pubkey) == Some(out[i]))
    && (forall g: nat, o: nat :: g < |v.groups| && v.first[g] <= o < v.ends[g] && v.Key(g, o) <= low ==>
          HasKey(out, v.Key(g, o)))
  }

  lemma DeliverOne<H>(v: View<H>, bin: Pubkey -> nat, b: nat, ws: seq<Pointer>, pos: seq<nat>, out: seq<Item<H>>,
                      low: int, item: Item<H>)
    requires Shows(v, bin, b) && v.Inv(ws, pos, None, 0, low) && Delivered(v, bin, b, out, low)
    requires ws != []
    requires var p := ws[|ws| - 1]; item == v.groups[p.group][RunEnd(v.groups[p.group], p.offset) - 1]
    ensures Delivered(v, bin, b, out + [item], item.pubkey)
  {
    var p := ws[|ws| - 1];
    PopIsNewest(v, bin, b, ws, pos, low);
    v.NothingSkipped(ws, pos, low, p.group, p.offset);
    var out' := out + [item];
    forall g: nat, o: nat | g < |v.groups| && v.first[g] <= o < v.ends[g] && v.Key(g, o) <= item.pubkey
      ensures HasKey(out', v.Key(g, o))
    {
      v.NothingSkipped(ws, pos, low, g, o);
      if v.Key(g, o) <= low {
        assert HasKey(out, v.Key(g, o));
        var i :| 0 <= i < |out| && out[i].pubkey == v.Key(g, o);
        assert out'[i].pubkey == v.Key(g, o);
      } else {
        assert out'[|out|].pubkey == v.Key(g, o);
      }
    }
  }

  lemma AllDelivered<H>(v: View<H>, bin: Pubkey -> nat, b: nat, pos: seq<nat>, out: seq<Item<H>>, low: int)
    requires Shows(v, bin, b) && v.Inv([], pos, None, 0, low) && Delivered(v, bin, b, out, low)
    ensures IsBinWinners(v.groups, bin, b, out)
  {
    forall g: nat | g < |v.groups| ensures pos[g] == v.ends[g] { NoneAhead(v, pos, low, g); }
    forall g, i | 0 <= g < |v.groups| && 0 <= i < |v.groups[g]| && bin(v.groups[g][i].pubkey) == b
      ensures HasKey(out, v.groups[g][i].pubkey)
    {
      assert pos[g] == v.ends[g];
      assert !v.Dominated(pos, None, g, v.Key(g, i));
    }
  }

  lemma NoneAhead<H>(v: View<H>, pos: seq<nat>, low: int, g: nat)
    requires v.Inv([], pos, None, 0, low) && g < |v.groups|
    ensures pos[g] == v.ends[g]
  {
  }
}
