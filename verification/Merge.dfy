/** The state of the k-way merge of sorted slot groups, and what each of its steps keeps. */
module Merge {
  import opened Common
  import opened SlotGroups

  /** accounts_hash.rs `SlotGroupPointer`. */
  datatype Pointer = Pointer(group: nat, offset: nat)

  /** The end of the run of equal pubkeys that position o is in. */
  function RunEnd<H>(group: seq<Item<H>>, o: nat): (r: nat)
    requires o < |group|
    ensures o < r <= |group|
    ensures forall i :: o <= i < r ==> group[i].pubkey == group[o].pubkey
    ensures r < |group| ==> group[r].pubkey != group[o].pubkey
    decreases |group| - o
  {
    if o + 1 < |group| && group[o + 1].pubkey == group[o].pubkey then RunEnd(group, o + 1) else o + 1
  }

  lemma RunEndIs<H>(group: seq<Item<H>>, o: nat, r: nat)
    requires o < r <= |group|
    requires forall i :: o <= i < r ==> group[i].pubkey == group[o].pubkey
    requires r < |group| ==> group[r].pubkey != group[o].pubkey
    ensures RunEnd(group, o) == r
  {
  }

  /** The slot groups as one worker sees them: in group g, the items of its bin are those from
      first[g] up to ends[g]. `pos` says how far each group has been read. */
  datatype View<H> = View(groups: seq<seq<Item<H>>>, first: seq<nat>, ends: seq<nat>) {

    ghost predicate Valid() {
      && SortedGroups(groups)
      && |first| == |ends| == |groups|
      && (forall g :: 0 <= g < |groups| ==> first[g] <= ends[g] <= |groups[g]|)
      && (forall g, i, j :: 0 <= g < |groups| && 0 <= i < ends[g] <= j < |groups[g]| ==>
            groups[g][i].pubkey < groups[g][j].pubkey)
    }

    function Key(g: nat, o: nat): (r: Pubkey)
      requires g < |groups| && o < |groups[g]|
    {
      groups[g][o].pubkey
    }

    /** Positions within the bin, each at the first of a run of equal pubkeys. */
    ghost predicate Frontier(pos: seq<nat>) {
      && Valid()
      && |pos| == |groups|
      && forall g {:trigger pos[g]} :: 0 <= g < |pos| ==>
           && first[g] <= pos[g] <= ends[g]
           && (first[g] < pos[g] < ends[g] ==> Key(g, pos[g] - 1) < Key(g, pos[g]))
    }

    /** The working set: strictly descending keys, exactly one pointer per group that is not
        exhausted, except for the group whose next item is still to be added. */
    ghost predicate Represents(ws: seq<Pointer>, pos: seq<nat>, pending: Option<nat>)
      requires Frontier(pos)
    {
      && (forall i :: 0 <= i < |ws| ==>
            && ws[i].group < |groups| && Some(ws[i].group) != pending
            && ws[i].offset == pos[ws[i].group] && ws[i].offset < ends[ws[i].group])
      && (forall i, j :: 0 <= i < j < |ws| ==>
            Key(ws[j].group, ws[j].offset) < Key(ws[i].group, ws[i].offset))
      && (forall g {:trigger pos[g]} :: 0 <= g < |groups| && Some(g) != pending && pos[g] < ends[g] ==>
            Pointer(g, pos[g]) in ws)
    }

    /** A higher group is about to deliver `key`. */
    ghost predicate Dominated(pos: seq<nat>, pending: Option<nat>, g: int, key: Pubkey)
      requires Frontier(pos)
    {
      exists h: nat {:trigger pos[h]} :: g < h < |groups| && Some(h) != pending && pos[h] < ends[h] &&
        Key(h, pos[h]) == key
    }

    /** Everything already passed in the groups from lo on was delivered, or is dominated. */
    ghost predicate Covered(pos: seq<nat>, pending: Option<nat>, lo: nat, low: int)
      requires Frontier(pos)
    {
      forall g: nat, o: nat :: lo <= g < |groups| && first[g] <= o < pos[g] ==>
        Key(g, o) <= low || Dominated(pos, pending, g, Key(g, o))
    }

    ghost predicate AllAbove(pos: seq<nat>, low: int)
      requires Frontier(pos)
    {
      forall g {:trigger pos[g]} :: 0 <= g < |groups| && pos[g] < ends[g] ==> Key(g, pos[g]) > low
    }

    ghost predicate Inv(ws: seq<Pointer>, pos: seq<nat>, pending: Option<nat>, lo: nat, low: int) {
      && Frontier(pos)
      && Represents(ws, pos, pending)
      && Covered(pos, pending, lo, low)
      && AllAbove(pos, low)
    }

    // ----- moving one group past a run of equal pubkeys -----

    lemma Advance(pos: seq<nat>, q: nat)
      requires Frontier(pos)
      requires q < |groups| && pos[q] < ends[q]
      ensures var e := RunEnd(groups[q], pos[q]);
              && pos[q] < e <= ends[q] && Frontier(pos[q := e])
              && (e < |groups[q]| ==> Key(q, pos[q]) < Key(q, e))
    {
      var o := pos[q];
      var e := RunEnd(groups[q], o);
      assert SortedGroup(groups[q]);
      if e < |groups[q]| { assert groups[q][o].pubkey <= groups[q][e].pubkey; }
      if ends[q] < |groups[q]| { assert groups[q][o].pubkey < groups[q][ends[q]].pubkey; }
    }

    lemma AdvanceAbove(pos: seq<nat>, q: nat, low: int)
      requires Frontier(pos) && AllAbove(pos, low)
      requires q < |groups| && pos[q] < ends[q]
      requires Frontier(pos[q := RunEnd(groups[q], pos[q])])
      ensures AllAbove(pos[q := RunEnd(groups[q], pos[q])], low)
    {
      Advance(pos, q);
      assert Key(q, pos[q]) > low;
    }

    /** If another group h above delivers the key of q, then q may be moved past it. */
    lemma SkipCovered(pos: seq<nat>, q: nat, h: nat, lo: nat, low: int)
      requires Frontier(pos) && Covered(pos, Some(q), lo, low)
      requires q < h < |groups| && pos[q] < ends[q] && pos[h] < ends[h]
      requires Key(h, pos[h]) == Key(q, pos[q])
      requires Frontier(pos[q := RunEnd(groups[q], pos[q])])
      ensures Covered(pos[q := RunEnd(groups[q], pos[q])], Some(q), lo, low)
    {
      var pos' := pos[q := RunEnd(groups[q], pos[q])];
      forall g: nat, o: nat | lo <= g < |groups| && first[g] <= o < pos'[g]
        ensures Key(g, o) <= low || Dominated(pos', Some(q), g, Key(g, o))
      {
        if g == q && pos[q] <= o {
          assert pos'[h] == pos[h];
        } else if Key(g, o) > low {
          assert Dominated(pos, Some(q), g, Key(g, o));
          var k: nat :| g < k < |groups| && Some(k) != Some(q) && pos[k] < ends[k] && Key(k, pos[k]) == Key(g, o);
          assert pos'[k] == pos[k];
        }
      }
    }

    /** A lower group's entry of a key that a higher group delivers is skipped. */
    lemma SkipDominated(ws: seq<Pointer>, pos: seq<nat>, q: nat, i: nat, lo: nat, low: int)
      requires Inv(ws, pos, Some(q), lo, low)
      requires q < |groups| && pos[q] < ends[q]
      requires i < |ws| && ws[i].group > q
      requires Key(ws[i].group, ws[i].offset) == Key(q, pos[q])
      ensures Inv(ws, pos[q := RunEnd(groups[q], pos[q])], Some(q), lo, low)
    {
      Advance(pos, q);
      AdvanceAbove(pos, q, low);
      SkipCovered(pos, q, ws[i].group, lo, low);
    }

    lemma TakeOverCovered(pos: seq<nat>, q: nat, f: nat, lo: nat, low: int)
      requires Frontier(pos) && Covered(pos, Some(q), lo, low)
      requires f < q < |groups| && pos[q] < ends[q] && pos[f] < ends[f]
      requires Key(f, pos[f]) == Key(q, pos[q])
      requires Frontier(pos[f := RunEnd(groups[f], pos[f])])
      ensures Covered(pos[f := RunEnd(groups[f], pos[f])], Some(f), lo, low)
    {
      var pos' := pos[f := RunEnd(groups[f], pos[f])];
      forall g: nat, o: nat | lo <= g < |groups| && first[g] <= o < pos'[g]
        ensures Key(g, o) <= low || Dominated(pos', Some(f), g, Key(g, o))
      {
        if g == f && pos[f] <= o {
          assert pos'[q] == pos[q];
        } else if Key(g, o) > low {
          assert Dominated(pos, Some(q), g, Key(g, o));
          var h: nat :| g < h < |groups| && Some(h) != Some(q) && pos[h] < ends[h] && Key(h, pos[h]) == Key(g, o);
          var h' := if h == f then q else h;
          assert pos'[h'] == pos[h'];
        }
      }
    }

    lemma TakeOverRepresents(ws: seq<Pointer>, pos: seq<nat>, q: nat, i: nat, e: nat)
      requires Frontier(pos) && Represents(ws, pos, Some(q))
      requires i < |ws| && q < |groups| && pos[q] < ends[q] && ws[i].group != q
      requires Key(ws[i].group, ws[i].offset) == Key(q, pos[q])
      requires Frontier(pos[ws[i].group := e])
      ensures Represents(ws[i := Pointer(q, pos[q])], pos[ws[i].group := e], Some(ws[i].group))
    {
      var f := ws[i].group;
      var pos' := pos[f := e];
      var ws' := ws[i := Pointer(q, pos[q])];
      forall g | 0 <= g < |groups| && Some(g) != Some(f) && pos'[g] < ends[g]
        ensures Pointer(g, pos'[g]) in ws'
      {
        if g == q {
          assert ws'[i] == Pointer(g, pos'[g]);
        } else {
          assert pos'[g] == pos[g];
          var j :| 0 <= j < |ws| && ws[j] == Pointer(g, pos[g]);
          assert ws'[j] == ws[j];
        }
      }
      forall j | 0 <= j < |ws| && j != i ensures ws[j].group != f {
        if j < i { assert Key(f, ws[i].offset) < Key(ws[j].group, ws[j].offset); }
        if i < j { assert Key(ws[j].group, ws[j].offset) < Key(f, ws[i].offset); }
      }
    }

    /** A higher group takes over a key from a lower group, which then has to move on. */
    lemma TakeOver(ws: seq<Pointer>, pos: seq<nat>, q: nat, i: nat, lo: nat, low: int)
      requires Inv(ws, pos, Some(q), lo, low)
      requires q < |groups| && pos[q] < ends[q]
      requires i < |ws| && ws[i].group <= q
      requires Key(ws[i].group, ws[i].offset) == Key(q, pos[q])
      ensures ws[i].group != q
      ensures var f := ws[i].group;
              Inv(ws[i := Pointer(q, pos[q])], pos[f := RunEnd(groups[f], pos[f])], Some(f), lo, low)
    {
      var f := ws[i].group;
      Advance(pos, f);
      AdvanceAbove(pos, f, low);
      TakeOverCovered(pos, q, f, lo, low);
      TakeOverRepresents(ws, pos, q, i, RunEnd(groups[f], pos[f]));
    }

    static lemma Inserted(ws: seq<Pointer>, i: nat, p: Pointer, ws': seq<Pointer>)
      requires i <= |ws| && ws' == ws[..i] + [p] + ws[i..]
      ensures forall j :: 0 <= j < |ws'| ==> ws'[j] == if j < i then ws[j] else if j == i then p else ws[j - 1]
    {
    }

    static lemma InsertedMember(ws: seq<Pointer>, i: nat, p: Pointer, ws': seq<Pointer>, x: Pointer)
      requires i <= |ws| && ws' == ws[..i] + [p] + ws[i..]
      requires x in ws || x == p
      ensures x in ws'
    {
      assert ws == ws[..i] + ws[i..];
    }

    /** The pointer is at the next item of its group. */
    ghost predicate PointsAt(p: Pointer, pos: seq<nat>)
      requires Frontier(pos)
    {
      p.group < |groups| && p.offset == pos[p.group] && p.offset < ends[p.group]
    }

    lemma InsertedOrdered(ws: seq<Pointer>, pos: seq<nat>, q: nat, i: nat, ws': seq<Pointer>, a: nat, b: nat)
      requires Frontier(pos) && Represents(ws, pos, Some(q))
      requires q < |groups| && pos[q] < ends[q] && i <= |ws|
      requires forall j :: 0 <= j < i ==> Key(ws[j].group, ws[j].offset) > Key(q, pos[q])
      requires forall j :: i <= j < |ws| ==> Key(ws[j].group, ws[j].offset) < Key(q, pos[q])
      requires ws' == ws[..i] + [Pointer(q, pos[q])] + ws[i..] && a < b < |ws'|
      ensures ws'[a].group < |groups| && ws'[a].offset < ends[ws'[a].group]
      ensures ws'[b].group < |groups| && ws'[b].offset < ends[ws'[b].group]
      ensures Key(ws'[b].group, ws'[b].offset) < Key(ws'[a].group, ws'[a].offset)
    {
      Inserted(ws, i, Pointer(q, pos[q]), ws');
    }

    lemma InsertRepresents(ws: seq<Pointer>, pos: seq<nat>, q: nat, i: nat)
      requires Frontier(pos) && Represents(ws, pos, Some(q))
      requires q < |groups| && pos[q] < ends[q]
      requires i <= |ws|
      requires forall j :: 0 <= j < i ==> Key(ws[j].group, ws[j].offset) > Key(q, pos[q])
      requires forall j :: i <= j < |ws| ==> Key(ws[j].group, ws[j].offset) < Key(q, pos[q])
      ensures Represents(ws[..i] + [Pointer(q, pos[q])] + ws[i..], pos, None)
    {
      var ws' := ws[..i] + [Pointer(q, pos[q])] + ws[i..];
      forall j | 0 <= j < |ws'| ensures PointsAt(ws'[j], pos) { Inserted(ws, i, Pointer(q, pos[q]), ws'); }
      forall a, b | 0 <= a < b < |ws'|
        ensures Key(ws'[b].group, ws'[b].offset) < Key(ws'[a].group, ws'[a].offset)
      {
        InsertedOrdered(ws, pos, q, i, ws', a, b);
      }
      forall g | 0 <= g < |groups| && pos[g] < ends[g]
        ensures Pointer(g, pos[g]) in ws'
      {
        InsertedMember(ws, i, Pointer(q, pos[q]), ws', Pointer(g, pos[g]));
      }
    }

    lemma CoveredWithout(pos: seq<nat>, q: nat, lo: nat, low: int)
      requires Frontier(pos) && Covered(pos, Some(q), lo, low)
      ensures Covered(pos, None, lo, low)
    {
      forall g: nat, o: nat | lo <= g < |groups| && first[g] <= o < pos[g]
        ensures Key(g, o) <= low || Dominated(pos, None, g, Key(g, o))
      {
        if Key(g, o) > low {
          assert Dominated(pos, Some(q), g, Key(g, o));
        }
      }
    }

    /** A key that is not in the working set goes to its place. */
    lemma Insert(ws: seq<Pointer>, pos: seq<nat>, q: nat, i: nat, lo: nat, low: int)
      requires Inv(ws, pos, Some(q), lo, low)
      requires q < |groups| && pos[q] < ends[q]
      requires i <= |ws|
      requires forall j :: 0 <= j < i ==> Key(ws[j].group, ws[j].offset) > Key(q, pos[q])
      requires forall j :: i <= j < |ws| ==> Key(ws[j].group, ws[j].offset) < Key(q, pos[q])
      ensures Inv(ws[..i] + [Pointer(q, pos[q])] + ws[i..], pos, None, lo, low)
    {
      InsertRepresents(ws, pos, q, i);
      CoveredWithout(pos, q, lo, low);
    }

    /** A group that has nothing more in the bin leaves the working set. */
    lemma Exhausted(ws: seq<Pointer>, pos: seq<nat>, q: nat, lo: nat, low: int)
      requires Inv(ws, pos, Some(q), lo, low)
      requires q < |groups| && pos[q] == ends[q]
      ensures Inv(ws, pos, None, lo, low)
    {
      CoveredWithout(pos, q, lo, low);
    }

    // ----- taking the smallest key -----

    /** The last pointer of the working set has the smallest key of all that is still to be read,
        and no other group delivers that key. */
    lemma LastIsSmallest(ws: seq<Pointer>, pos: seq<nat>, g: nat, lo: nat, low: int)
      requires Inv(ws, pos, None, lo, low)
      requires ws != [] && g < |groups| && pos[g] < ends[g]
      ensures var p := ws[|ws| - 1];
              && Key(p.group, p.offset) <= Key(g, pos[g])
              && (g != p.group ==> Key(p.group, p.offset) < Key(g, pos[g]))
    {
      var j :| 0 <= j < |ws| && ws[j] == Pointer(g, pos[g]);
    }

    /** Nothing in the bin lies between the last delivered key and the smallest key, and no group
        above the smallest pointer's group has that key. */
    lemma NothingSkipped(ws: seq<Pointer>, pos: seq<nat>, low: int, g: nat, o: nat)
      requires Inv(ws, pos, None, 0, low)
      requires ws != []
      requires g < |groups| && first[g] <= o < ends[g]
      ensures var p := ws[|ws| - 1]; var key := Key(p.group, p.offset);
              && key > low
              && (Key(g, o) <= low || Key(g, o) >= key)
              && (Key(g, o) == key ==> g <= p.group)
    {
      var p := ws[|ws| - 1];
      var key := Key(p.group, p.offset);
      assert pos[p.group] == p.offset;
      if o < pos[g] {
        if Key(g, o) > low {
          assert Dominated(pos, None, g, Key(g, o));
          var h: nat :| g < h < |groups| && pos[h] < ends[h] && Key(h, pos[h]) == Key(g, o);
          LastIsSmallest(ws, pos, h, 0, low);
        }
      } else {
        LastIsSmallest(ws, pos, g, 0, low);
        assert SortedGroup(groups[g]);
        assert Key(g, pos[g]) <= Key(g, o);
      }
    }

    lemma PopCovered(pos: seq<nat>, p: nat, low: int)
      requires Frontier(pos) && Covered(pos, None, 0, low)
      requires p < |groups| && pos[p] < ends[p] && Key(p, pos[p]) > low
      requires Frontier(pos[p := RunEnd(groups[p], pos[p])])
      ensures Covered(pos[p := RunEnd(groups[p], pos[p])], Some(p), 0, Key(p, pos[p]))
    {
      var key := Key(p, pos[p]);
      var pos' := pos[p := RunEnd(groups[p], pos[p])];
      assert SortedGroup(groups[p]);
      forall g: nat, o: nat | 0 <= g < |groups| && first[g] <= o < pos'[g]
        ensures Key(g, o) <= key || Dominated(pos', Some(p), g, Key(g, o))
      {
        if Key(g, o) > key {
          assert g != p;
          assert Dominated(pos, None, g, Key(g, o));
          var h: nat :| g < h < |groups| && pos[h] < ends[h] && Key(h, pos[h]) == Key(g, o);
          assert pos'[h] == pos[h];
        }
      }
    }

    lemma PopRepresents(ws: seq<Pointer>, pos: seq<nat>, e: nat)
      requires Frontier(pos) && Represents(ws, pos, None)
      requires ws != []
      requires Frontier(pos[ws[|ws| - 1].group := e])
      ensures Represents(ws[..|ws| - 1], pos[ws[|ws| - 1].group := e], Some(ws[|ws| - 1].group))
    {
      var n := |ws| - 1;
      var p := ws[n];
      var pos' := pos[p.group := e];
      var ws' := ws[..n];
      assert ws == ws' + [p];
      forall j | 0 <= j < n ensures ws'[j].group != p.group && pos'[ws'[j].group] == pos[ws[j].group] {
        assert Key(p.group, p.offset) < Key(ws[j].group, ws[j].offset);
      }
      forall g | 0 <= g < |groups| && Some(g) != Some(p.group) && pos'[g] < ends[g]
        ensures Pointer(g, pos'[g]) in ws'
      {
        assert pos'[g] == pos[g];
        assert Pointer(g, pos[g]) in ws;
      }
    }

    lemma PopAbove(ws: seq<Pointer>, pos: seq<nat>, low: int)
      requires Inv(ws, pos, None, 0, low)
      requires ws != []
      requires var p := ws[|ws| - 1]; Frontier(pos[p.group := RunEnd(groups[p.group], p.offset)])
      ensures var p := ws[|ws| - 1]; AllAbove(pos[p.group := RunEnd(groups[p.group], p.offset)], Key(p.group, p.offset))
    {
      var p := ws[|ws| - 1];
      Advance(pos, p.group);
      var pos' := pos[p.group := RunEnd(groups[p.group], p.offset)];
      forall g | 0 <= g < |groups| && pos'[g] < ends[g]
        ensures Key(g, pos'[g]) > Key(p.group, p.offset)
      {
        if g != p.group { assert pos'[g] == pos[g]; LastIsSmallest(ws, pos, g, 0, low); }
      }
    }

    /** Delivering the smallest key moves its group on. */
    lemma Pop(ws: seq<Pointer>, pos: seq<nat>, low: int)
      requires Inv(ws, pos, None, 0, low)
      requires ws != []
      ensures var p := ws[|ws| - 1];
              Inv(ws[..|ws| - 1], pos[p.group := RunEnd(groups[p.group], p.offset)], Some(p.group), 0,
                  Key(p.group, p.offset))
    {
      var p := ws[|ws| - 1];
      Advance(pos, p.group);
      PopCovered(pos, p.group, low);
      PopRepresents(ws, pos, RunEnd(groups[p.group], p.offset));
      PopAbove(ws, pos, low);
    }

    // ----- how much is left -----

    /** How many items of the first n groups are still to be read. */
    ghost function Remaining(pos: seq<nat>, n: nat): (r: int)
      requires |pos| == |ends| && n <= |pos|
    {
      if n == 0 then 0 else Remaining(pos, n - 1) + ends[n - 1] - pos[n - 1]
    }

    lemma {:induction false} RemainingUpdate(pos: seq<nat>, g: nat, v: nat, n: nat)
      requires |pos| == |ends| && g < |pos| && n <= |pos|
      ensures Remaining(pos[g := v], n) == Remaining(pos, n) + if g < n then pos[g] - v else 0
    {
      if n > 0 { RemainingUpdate(pos, g, v, n - 1); }
    }

    lemma {:induction false} RemainingNonNegative(pos: seq<nat>, n: nat)
      requires |pos| == |ends| && n <= |pos|
      requires forall g :: 0 <= g < |pos| ==> pos[g] <= ends[g]
      ensures Remaining(pos, n) >= 0
    {
      if n > 0 { RemainingNonNegative(pos, n - 1); }
    }
  }
}
