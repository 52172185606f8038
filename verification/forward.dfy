/**
 Forward checking: after a value is written into a cell, remove it from the
 domains of the cells of the box, the row and the column, in that order,
 and give up as soon as a cell whose domain is exactly that value is met.
 The Python function mutates the dictionary in place and returns a flag;
 here it returns the flag together with the updated domains, including the
 removals already made when it gives up.
 */
module ForwardCheck {
  import opened Grid
  import opened Boards
  import opened Lists
  import opened Candidates
  import opened DomainInit

  /** The flag `__forwardChecking` returns and the domains as it leaves them. */
  datatype Pruned = Pruned(ok: bool, domains: Domains)

  predicate Visitable(visit: seq<string>, d: Domains) {
    forall s :: s in visit ==> s in d
  }

  /** Every domain is free of duplicates, as the domains the solver builds are. */
  predicate DistinctDomains(d: Domains) {
    forall s :: s in d ==> NoDup(d[s])
  }

  /** One of the three loops of `__forwardChecking`, over the cells `visit`:
      a cell whose domain holds `val` either stops the loop (domain of
      length 1) or loses the first occurrence of `val`. */
  function PruneEach(visit: seq<string>, val: int, d: Domains): (p: Pruned)
    requires Visitable(visit, d)
    ensures p.domains.Keys == d.Keys
    decreases |visit|
  {
    if |visit| == 0 then Pruned(true, d)
    else
      var s := visit[0];
      if val in d[s] then
        if |d[s]| == 1 then Pruned(false, d)
        else PruneEach(visit[1..], val, d[s := RemoveFirst(d[s], val)])
      else PruneEach(visit[1..], val, d)
  }

  /** The cells `__forwardChecking` visits, in order: the box, then the row
      and the column of the assigned cell. */
  function Peers(box: seq<string>, slot: string): (visit: seq<string>)
    requires |slot| >= 2
  {
    box + RowCells(slot[0]) + ColCells(slot[1])
  }

  /** `__forwardChecking(box, assignedSlot, val, domains)`. */
  function ForwardChecking(box: seq<string>, slot: string, val: int, d: Domains): (p: Pruned)
    requires |slot| >= 2 && Visitable(Peers(box, slot), d)
    ensures p == PruneEach(Peers(box, slot), val, d)
  {
    var rows, cols := RowCells(slot[0]), ColCells(slot[1]);
    assert Peers(box, slot) == box + (rows + cols);
    assert Visitable(box, d) && Visitable(rows + cols, d);
    PruneEachAppend(box, rows + cols, val, d);
    var p1 := PruneEach(box, val, d);
    if !p1.ok then p1
    else
      PruneEachAppend(rows, cols, val, p1.domains);
      var p2 := PruneEach(rows, val, p1.domains);
      if !p2.ok then p2
      else PruneEach(cols, val, p2.domains)
  }

  /** Running the loops one after the other is one loop over the
      concatenated cells, stopping at the first failure. */
  lemma {:induction false} PruneEachAppend(xs: seq<string>, ys: seq<string>, val: int, d: Domains)
    requires Visitable(xs + ys, d)
    ensures Visitable(xs, d)
    ensures var p := PruneEach(xs, val, d);
            Visitable(ys, p.domains)
            && PruneEach(xs + ys, val, d) == if p.ok then PruneEach(ys, val, p.domains) else p
    decreases |xs|
  {
    assert forall i :: 0 <= i < |xs| ==> xs[i] == (xs + ys)[i];
    assert forall i :: 0 <= i < |ys| ==> ys[i] == (xs + ys)[|xs| + i];
    if |xs| == 0 {
      assert xs + ys == ys;
    } else {
      var s := xs[0];
      assert (xs + ys)[1..] == xs[1..] + ys;
      var d' := if val in d[s] && |d[s]| > 1 then d[s := RemoveFirst(d[s], val)] else d;
      if !(val in d[s] && |d[s]| == 1) {
        PruneEachAppend(xs[1..], ys, val, d');
      }
    }
  }

  /** The position of the first visited cell whose domain is exactly `[val]`,
      or the number of cells if there is none. */
  function FirstConflict(visit: seq<string>, val: int, d: Domains): (k: nat)
    requires Visitable(visit, d)
    ensures k <= |visit|
    ensures forall i :: 0 <= i < k ==> d[visit[i]] != [val]
    ensures k < |visit| ==> d[visit[k]] == [val]
    decreases |visit|
  {
    if |visit| == 0 then 0
    else if d[visit[0]] == [val] then 0
    else 1 + FirstConflict(visit[1..], val, d)
  }

  /** What one loop leaves behind, stated without the loop: it fails
      exactly when some visited cell's domain is `[val]`; the cells visited
      before the first such cell lose `val` (their other values keep their
      order), and every other domain is as it was, also on failure. */
  ghost predicate PrunedAsSpecified(visit: seq<string>, val: int, d: Domains, p: Pruned)
    requires Visitable(visit, d)
  {
    var k := FirstConflict(visit, val, d);
    && (p.ok <==> k == |visit|)
    && DistinctDomains(p.domains)
    && p.domains.Keys == d.Keys
    && forall s :: s in d ==> p.domains[s] == if s in visit[..k] then Without(d[s], val) else d[s]
  }

  /** With duplicate-free domains one loop does what `PrunedAsSpecified` says. */
  lemma {:induction false} PruneEachSpec(visit: seq<string>, val: int, d: Domains)
    requires Visitable(visit, d) && DistinctDomains(d)
    ensures PrunedAsSpecified(visit, val, d, PruneEach(visit, val, d))
    decreases |visit|
  {
    if |visit| > 0 {
      var s := visit[0];
      if val in d[s] && |d[s]| == 1 {
        PruneStopsAtHead(visit, val, d);
      } else {
        var d' := d[s := Without(d[s], val)];
        PruneHead(visit, val, d);
        PruneEachSpec(visit[1..], val, d');
        PruneStep(visit, val, d, d');
      }
    }
  }

  /** A first cell whose domain is `[val]` stops the loop before anything changes. */
  lemma PruneStopsAtHead(visit: seq<string>, val: int, d: Domains)
    requires |visit| > 0 && Visitable(visit, d) && DistinctDomains(d)
    requires val in d[visit[0]] && |d[visit[0]]| == 1
    ensures PrunedAsSpecified(visit, val, d, PruneEach(visit, val, d))
  {
    var s := visit[0];
    assert d[s] == [d[s][0]];
    assert FirstConflict(visit, val, d) == 0;
  }

  /** A first cell that does not stop the loop loses `val`, its domain stays
      duplicate-free, and the loop carries on over the remaining cells. */
  lemma PruneHead(visit: seq<string>, val: int, d: Domains)
    requires |visit| > 0 && Visitable(visit, d) && DistinctDomains(d)
    requires !(val in d[visit[0]] && |d[visit[0]]| == 1)
    ensures var d' := d[visit[0] := Without(d[visit[0]], val)];
            && d[visit[0]] != [val]
            && DistinctDomains(d')
            && Visitable(visit[1..], d')
            && PruneEach(visit, val, d) == PruneEach(visit[1..], val, d')
  {
    var s := visit[0];
    var d' := d[s := Without(d[s], val)];
    if val in d[s] {
      RemoveFirstOfDistinct(d[s], val);
    } else {
      assert d' == d;
    }
    WithoutKeepsNoDup(d[s], val);
    assert visit == [s] + visit[1..];
  }

  /** The induction step of `PruneEachSpec`: a first cell that does not stop
      the loop loses `val`, and the rest of the loop runs on the result. */
  lemma PruneStep(visit: seq<string>, val: int, d: Domains, d': Domains)
    requires |visit| > 0 && Visitable(visit, d) && DistinctDomains(d)
    requires d[visit[0]] != [val] && d' == d[visit[0] := Without(d[visit[0]], val)]
    requires Visitable(visit[1..], d')
    requires PruneEach(visit, val, d) == PruneEach(visit[1..], val, d')
    requires PrunedAsSpecified(visit[1..], val, d', PruneEach(visit[1..], val, d'))
    ensures PrunedAsSpecified(visit, val, d, PruneEach(visit, val, d))
  {
    var s, rest := visit[0], visit[1..];
    var p := PruneEach(rest, val, d');
    var k := FirstConflict(visit, val, d);
    var k' := FirstConflict(rest, val, d');
    assert k == k' + 1 by {
      FirstConflictAgree(rest, val, d, d', s);
    }
    assert p.ok <==> k == |visit|;
    assert p.domains.Keys == d.Keys;
    HeadSlice(visit, k');
    forall t | t in d
      ensures p.domains[t] == if t in visit[..k] then Without(d[t], val) else d[t]
    {
      if t == s {
        assert Without(d'[s], val) == d'[s];
      } else {
        assert d'[t] == d[t];
        assert t in visit[..k] <==> t in rest[..k'];
      }
    }
  }

  lemma HeadSlice(visit: seq<string>, n: nat)
    requires n < |visit|
    ensures forall t :: t in visit[..n + 1] <==> t == visit[0] || t in visit[1..][..n]
  {
    assert visit[..n + 1] == [visit[0]] + visit[1..][..n];
  }

  /** A loop that runs to the end: it succeeds iff no visited cell's domain
      is `[val]`, and then every visited cell has lost `val` and no other
      domain has changed. */
  lemma PruneEachSucceeds(visit: seq<string>, val: int, d: Domains)
    requires Visitable(visit, d) && DistinctDomains(d)
    ensures var p := PruneEach(visit, val, d);
            && (p.ok <==> forall s :: s in visit ==> d[s] != [val])
            && (p.ok ==> forall s :: s in d ==> p.domains[s] == if s in visit then Without(d[s], val) else d[s])
  {
    PruneEachSpec(visit, val, d);
    var k := FirstConflict(visit, val, d);
    assert visit[..|visit|] == visit;
    if k < |visit| {
      assert visit[k] in visit;
    } else {
      forall s | s in visit ensures d[s] != [val] {
        var i :| 0 <= i < |visit| && visit[i] == s;
      }
    }
  }

  /** Changing the domain of a cell that is not `[val]` before or after does
      not move the first conflict. */
  lemma {:induction false} FirstConflictAgree(visit: seq<string>, val: int, d: Domains, d': Domains, s: string)
    requires Visitable(visit, d) && d'.Keys == d.Keys
    requires forall t :: t in d && t != s ==> d'[t] == d[t]
    requires s in d && d[s] != [val] && d'[s] != [val]
    ensures FirstConflict(visit, val, d) == FirstConflict(visit, val, d')
    decreases |visit|
  {
    if |visit| > 0 {
      FirstConflictAgree(visit[1..], val, d, d', s);
    }
  }

  /** `__forwardChecking` in full: it returns True exactly when no peer
      (box, row or column cell, the assigned cell included) has the domain
      `[val]`; on True every peer's domain has lost `val` and kept the order
      of its other values, and every other domain is unchanged; on False
      the removals made before the conflicting cell stay in place. */
  lemma ForwardCheckingSpec(box: seq<string>, slot: string, val: int, d: Domains)
    requires |slot| >= 2 && Visitable(Peers(box, slot), d) && DistinctDomains(d)
    ensures var p, visit := ForwardChecking(box, slot, val, d), Peers(box, slot);
            var k := FirstConflict(visit, val, d);
            && p.domains.Keys == d.Keys
            && (p.ok <==> forall i :: 0 <= i < |visit| ==> d[visit[i]] != [val])
            && (p.ok ==> forall s :: s in d ==> p.domains[s] == if s in visit then Without(d[s], val) else d[s])
            && (!p.ok ==> d[visit[k]] == [val] && forall s :: s in d ==> p.domains[s] == if s in visit[..k] then Without(d[s], val) else d[s])
  {
    var visit := Peers(box, slot);
    PruneEachSpec(visit, val, d);
    assert visit[..|visit|] == visit;
  }

  // ---------------------------------------------------------------------
  // The call in `backtracking`, and the pruning it evidently intends.

  /** In `backtracking` the assigned cell's domain is `[val]` and the cell is
      in the box, so as written the box loop reaches it and gives up: the
      call always returns False and no cell outside the box ever loses `val`. */
  lemma AssignedCellStopsForwardChecking(box: seq<string>, slot: string, val: int, d: Domains)
    requires |slot| >= 2 && Visitable(Peers(box, slot), d)
    requires slot in box && d[slot] == [val]
    ensures !ForwardChecking(box, slot, val, d).ok
    ensures forall s :: s in d && s !in box ==> ForwardChecking(box, slot, val, d).domains[s] == d[s]
  {
    var visit := Peers(box, slot);
    var i :| 0 <= i < |box| && box[i] == slot;
    assert visit[i] == slot;
    StopsBy(visit, val, d, i);
    BoxPrefixOfPeers(box, slot, i);
  }

  /** A visited cell whose domain is `[val]` stops the loop at the latest
      when it is reached, and only the cells before it can have changed.
      This needs no assumption about duplicates. */
  lemma {:induction false} StopsBy(visit: seq<string>, val: int, d: Domains, i: int)
    requires Visitable(visit, d) && 0 <= i < |visit| && d[visit[i]] == [val]
    ensures !PruneEach(visit, val, d).ok
    ensures forall s :: s in d && s !in visit[..i] ==> PruneEach(visit, val, d).domains[s] == d[s]
    decreases |visit|
  {
    var s0 := visit[0];
    if val in d[s0] && |d[s0]| == 1 {
    } else {
      assert s0 != visit[i];
      var d' := if val in d[s0] then d[s0 := RemoveFirst(d[s0], val)] else d;
      assert PruneEach(visit, val, d) == PruneEach(visit[1..], val, d');
      assert visit[1..][i - 1] == visit[i];
      StopsBy(visit[1..], val, d', i - 1);
      assert visit[..i] == [s0] + visit[1..][..i - 1];
    }
  }

  /** The first `k` peers, for `k` within the box, are cells of the box. */
  lemma BoxPrefixOfPeers(box: seq<string>, slot: string, k: int)
    requires |slot| >= 2 && 0 <= k <= |box|
    ensures forall s :: s in Peers(box, slot)[..k] ==> s in box
  {
    assert Peers(box, slot)[..k] == box[..k];
  }

  /** `visit` without the assigned cell. */
  function Except(visit: seq<string>, slot: string): (r: seq<string>)
    ensures forall s :: s in r <==> s in visit && s != slot
  {
    if |visit| == 0 then []
    else (if visit[0] == slot then [] else [visit[0]]) + Except(visit[1..], slot)
  }

  /** Forward checking as the solver needs it after writing `val` into
      `slot`: the same three loops, skipping the assigned cell itself. */
  function ForwardCheckPeers(box: seq<string>, slot: string, val: int, d: Domains): (p: Pruned)
    requires |slot| >= 2 && Visitable(Peers(box, slot), d)
    ensures p == PruneEach(Except(Peers(box, slot), slot), val, d)
  {
    var rows, cols := Except(RowCells(slot[0]), slot), Except(ColCells(slot[1]), slot);
    var box' := Except(box, slot);
    ExceptAppend(box, RowCells(slot[0]) + ColCells(slot[1]), slot);
    ExceptAppend(RowCells(slot[0]), ColCells(slot[1]), slot);
    assert Peers(box, slot) == box + (RowCells(slot[0]) + ColCells(slot[1]));
    assert Except(Peers(box, slot), slot) == box' + (rows + cols);
    assert Visitable(box' + (rows + cols), d) by {
      assert forall i :: 0 <= i < |box' + (rows + cols)| ==> (box' + (rows + cols))[i] in box' + (rows + cols);
    }
    PruneEachAppend(box', rows + cols, val, d);
    var p1 := PruneEach(box', val, d);
    if !p1.ok then p1
    else
      PruneEachAppend(rows, cols, val, p1.domains);
      var p2 := PruneEach(rows, val, p1.domains);
      if !p2.ok then p2
      else PruneEach(cols, val, p2.domains)
  }

  lemma {:induction false} ExceptAppend(xs: seq<string>, ys: seq<string>, slot: string)
    ensures Except(xs + ys, slot) == Except(xs, slot) + Except(ys, slot)
  {
    if |xs| > 0 {
      assert (xs + ys)[1..] == xs[1..] + ys;
      ExceptAppend(xs[1..], ys, slot);
    } else {
      assert xs + ys == ys;
    }
  }

  /** The corrected pruning: after writing `val` into a cell whose domain is
      `[val]`, it succeeds exactly when no other peer's domain is `[val]`;
      then every other peer has lost `val` (the rest of its domain in order),
      the assigned cell keeps `[val]`, and no other domain changes. */
  lemma ForwardCheckPeersSpec(box: seq<string>, slot: string, val: int, d: Domains)
    requires |slot| >= 2 && Visitable(Peers(box, slot), d) && DistinctDomains(d)
    requires slot in d && d[slot] == [val]
    ensures var p, visit := ForwardCheckPeers(box, slot, val, d), Peers(box, slot);
            && p.domains.Keys == d.Keys
            && (p.ok <==> forall s :: s in visit && s != slot ==> d[s] != [val])
            && (p.ok ==> p.domains[slot] == [val])
            && (p.ok ==> forall s :: s in d && s != slot ==> p.domains[s] == if s in visit then Without(d[s], val) else d[s])
  {
    var visit := Except(Peers(box, slot), slot);
    PruneEachSucceeds(visit, val, d);
    assert slot !in visit;
  }

  /** The domains the initialisation loop builds are free of duplicates, so
      the specifications above apply to them. */
  lemma InitialDomainsAreDistinct(b: Board, domains: Domains)
    requires HasAllCells(b) && InitialDomainsOf(b, domains)
    ensures DistinctDomains(domains)
  {
    forall s | s in domains ensures NoDup(domains[s]) {
      var r, c :| 0 <= r < 9 && 0 <= c < 9 && s == Name(r, c);
      if b[Name(r, c)] == 0 {
        AscendingHasNoDup(domains[s]);
      }
    }
  }
}
