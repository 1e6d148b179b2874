/**
 * The value-level part of solver.cpp: how many customers each facility
 * serves, the lengths of the edges the shortest-path search relaxes, and
 * `has_path`, the read-only query that decides which facilities are queued
 * again after an augmentation, together with its reference reading (a walk up
 * the shortest-path tree that reaches a facility with spare capacity).
 */
module Flow {
  import opened Wrappers
  import opened Numbers
  import opened Records
  import FibHeap

  /** Every stored index names an existing customer or facility. */
  ghost predicate InRange(cs: seq<Customer>, fs: seq<Facility>)
  {
    && (forall x | 0 <= x < |cs| ::
          (cs[x].dijParent.Some? ==> cs[x].dijParent.value < |fs|) &&
          (cs[x].flowParent.Some? ==> cs[x].flowParent.value < |fs|))
    && (forall g | 0 <= g < |fs| :: fs[g].dijParent.Some? ==> fs[g].dijParent.value < |cs|)
  }

  // ---------------------------------------------------------------------
  // Counting the flow

  /** The number of customers assigned to facility g. */
  function CountAt(cs: seq<Customer>, g: nat): nat
  {
    if cs == [] then 0
    else (if cs[0].flowParent == Some(g) then 1 else 0) + CountAt(cs[1..], g)
  }

  /** The number of customers assigned to some facility. */
  function Assigned(cs: seq<Customer>): nat
  {
    if cs == [] then 0
    else (if cs[0].flowParent.Some? then 1 else 0) + Assigned(cs[1..])
  }

  /** The flow leaving the facilities 0..k-1. */
  function Outflow(fs: seq<Facility>, k: nat): nat
    requires k <= |fs|
  {
    if k == 0 then 0 else Outflow(fs, k - 1) + fs[k - 1].outflow
  }

  /** `outflow` of every facility counts the customers assigned to it. */
  ghost predicate Counted(cs: seq<Customer>, fs: seq<Facility>)
  {
    forall g | 0 <= g < |fs| :: CountAt(cs, g) == fs[g].outflow
  }

  function Indicator(b: bool): nat { if b then 1 else 0 }

  /** Reassigning customer i changes the count of two facilities by one each. */
  lemma {:induction false} CountReassign(cs: seq<Customer>, i: nat, v: Option<nat>, g: nat)
    requires i < |cs|
    ensures CountAt(cs[i := cs[i].(flowParent := v)], g) + Indicator(cs[i].flowParent == Some(g))
            == CountAt(cs, g) + Indicator(v == Some(g))
  {
    var cs' := cs[i := cs[i].(flowParent := v)];
    if i > 0 {
      assert cs'[1..] == cs[1..][i - 1 := cs[i].(flowParent := v)];
      CountReassign(cs[1..], i - 1, v, g);
    } else {
      assert cs'[1..] == cs[1..];
    }
  }

  /** Changing anything but the assignment of customers changes no count. */
  lemma {:induction false} CountSameAssignment(cs: seq<Customer>, cs': seq<Customer>, g: nat)
    requires |cs| == |cs'| && forall x | 0 <= x < |cs| :: cs[x].flowParent == cs'[x].flowParent
    ensures CountAt(cs, g) == CountAt(cs', g)
    ensures Assigned(cs) == Assigned(cs')
  {
    if cs != [] {
      CountSameAssignment(cs[1..], cs'[1..], g);
    }
  }

  /** The counts over the first k facilities, for customers assigned below k. */
  function CountBelow(cs: seq<Customer>, k: nat): nat
  {
    if k == 0 then 0 else CountBelow(cs, k - 1) + CountAt(cs, k - 1)
  }

  lemma {:induction false} CountBelowSplit(cs: seq<Customer>, k: nat)
    requires cs != []
    ensures CountBelow(cs, k) == CountBelow(cs[1..], k) +
              Indicator(cs[0].flowParent.Some? && cs[0].flowParent.value < k)
  {
    if k > 0 {
      CountBelowSplit(cs, k - 1);
    }
  }

  /** Summing the counts of all facilities counts every assigned customer once. */
  lemma {:induction false} CountBelowAssigned(cs: seq<Customer>, k: nat)
    requires forall x | 0 <= x < |cs| :: cs[x].flowParent.Some? ==> cs[x].flowParent.value < k
    ensures CountBelow(cs, k) == Assigned(cs)
  {
    if cs != [] {
      CountBelowSplit(cs, k);
      CountBelowAssigned(cs[1..], k);
    } else {
      CountBelowEmpty(k);
    }
  }

  lemma {:induction false} CountBelowEmpty(k: nat)
    ensures CountBelow([], k) == 0
  {
    if k > 0 {
      CountBelowEmpty(k - 1);
    }
  }

  /** When the outflows are the counts, the total outflow is the number of assigned customers. */
  lemma TotalFlow(cs: seq<Customer>, fs: seq<Facility>)
    requires InRange(cs, fs) && Counted(cs, fs)
    ensures Outflow(fs, |fs|) == Assigned(cs)
  {
    OutflowCounts(cs, fs, |fs|);
    CountBelowAssigned(cs, |fs|);
  }

  lemma {:induction false} OutflowCounts(cs: seq<Customer>, fs: seq<Facility>, k: nat)
    requires k <= |fs| && Counted(cs, fs)
    ensures Outflow(fs, k) == CountBelow(cs, k)
  {
    if k > 0 {
      OutflowCounts(cs, fs, k - 1);
    }
  }

  /** Every customer is assigned exactly when the assigned ones number |cs|. */
  lemma {:induction false} AllAssigned(cs: seq<Customer>)
    ensures Assigned(cs) <= |cs|
    ensures Assigned(cs) == |cs| <==> forall x | 0 <= x < |cs| :: cs[x].flowParent.Some?
  {
    if cs != [] {
      AllAssigned(cs[1..]);
      assert forall x | 1 <= x < |cs| :: cs[x] == cs[1..][x - 1];
    }
  }

  // ---------------------------------------------------------------------
  // Edges of the search

  /**
   * Reaching customer c from facility f: the distance of f, plus the
   * potential of f, plus the squared distance, added left to right.
   */
  function DirectCost(f: Facility, c: Customer): Num
  {
    Add(Add(f.dijDist, f.pi), Finite(Dist(f.pos, c.pos)))
  }

  /**
   * The shortcut through the assigned customer c to its facility f2: the cost
   * to c, less the squared distance from c to f2 and the potential of f2.
   */
  function ShortcutCost(f: Facility, c: Customer, f2: Facility): Num
  {
    Sub(Sub(DirectCost(f, c), Finite(Dist(c.pos, f2.pos))), f2.pi)
  }

  /**
   * The edge from facility f through customer c can improve nothing: the
   * target (c itself, or the facility c is assigned to) already has a
   * distance not above the cost through f. A customer assigned to f is skipped.
   */
  ghost predicate Relaxed(cs: seq<Customer>, fs: seq<Facility>, f: nat, c: nat)
    requires InRange(cs, fs) && f < |fs| && c < |cs|
  {
    match cs[c].flowParent
    case None => !Less(DirectCost(fs[f], cs[c]), cs[c].dijDist)
    case Some(f2) => f2 == f || !Less(ShortcutCost(fs[f], cs[c], fs[f2]), fs[f2].dijDist)
  }

  /** An infinite sum is infinite or NaN, whatever is added or subtracted. */
  lemma InfiniteCosts(f: Facility, c: Customer, f2: Facility)
    requires f.dijDist == PlusInf
    ensures DirectCost(f, c) in {PlusInf, NaN} && ShortcutCost(f, c, f2) in {PlusInf, NaN}
  {
  }

  /** Edges out of a facility at infinite distance are relaxed. */
  lemma InfiniteRelaxed(cs: seq<Customer>, fs: seq<Facility>, f: nat, c: nat)
    requires InRange(cs, fs) && f < |fs| && c < |cs| && fs[f].dijDist == PlusInf
    ensures Relaxed(cs, fs, f, c)
  {
    if cs[c].flowParent.Some? {
      InfiniteCosts(fs[f], cs[c], fs[cs[c].flowParent.value]);
    } else {
      InfiniteCosts(fs[f], cs[c], fs[f]);
    }
  }

  /** A distance that was lowered or kept. */
  predicate NotRaised(old_: Num, new_: Num)
  {
    new_ == old_ || Less(new_, old_)
  }

  /**
   * A relaxed edge stays relaxed while distances are only lowered and
   * positions, potentials and assignments stay, as long as its source f
   * keeps its own distance.
   */
  lemma RelaxedStays(cs: seq<Customer>, fs: seq<Facility>, cs': seq<Customer>, fs': seq<Facility>, f: nat, c: nat)
    requires InRange(cs, fs) && InRange(cs', fs') && |cs| == |cs'| && |fs| == |fs'|
    requires f < |fs| && c < |cs| && Relaxed(cs, fs, f, c)
    requires fs'[f].dijDist == fs[f].dijDist && fs'[f].pi == fs[f].pi && fs'[f].pos == fs[f].pos
    requires cs'[c].pos == cs[c].pos && cs'[c].flowParent == cs[c].flowParent
    requires NotRaised(cs[c].dijDist, cs'[c].dijDist)
    requires forall g | 0 <= g < |fs| :: fs'[g].pos == fs[g].pos && fs'[g].pi == fs[g].pi && NotRaised(fs[g].dijDist, fs'[g].dijDist)
    ensures Relaxed(cs', fs', f, c)
  {
    assert DirectCost(fs'[f], cs'[c]) == DirectCost(fs[f], cs[c]);
    match cs[c].flowParent
    case None =>
      if Less(cs'[c].dijDist, cs[c].dijDist) {
        NotLessLess(DirectCost(fs[f], cs[c]), cs[c].dijDist, cs'[c].dijDist);
      }
    case Some(f2) =>
      if f2 != f {
        assert ShortcutCost(fs'[f], cs'[c], fs'[f2]) == ShortcutCost(fs[f], cs[c], fs[f2]);
        if Less(fs'[f2].dijDist, fs[f2].dijDist) {
          NotLessLess(ShortcutCost(fs[f], cs[c], fs[f2]), fs[f2].dijDist, fs'[f2].dijDist);
        }
      }
  }

  // ---------------------------------------------------------------------
  // has_path

  /**
   * The facility two tree links above g: the customer through which g was
   * reached, and the facility that customer was reached from.
   */
  function Up(cs: seq<Customer>, fs: seq<Facility>, g: nat): (r: Option<nat>)
    requires InRange(cs, fs) && g < |fs|
    ensures r.Some? ==> r.value < |fs|
  {
    match fs[g].dijParent
    case None => None
    case Some(c) => cs[c].dijParent
  }

  /**
   * has_path: true at a facility whose distance is zero (already queued in
   * this pass) or that has spare capacity; otherwise the answer of the
   * facility two links up, false where the tree ends. The recursion of the
   * source is bounded by `fuel`; out of fuel the answer is false.
   */
  function HasPath(cs: seq<Customer>, fs: seq<Facility>, u: nat, g: nat, fuel: nat): bool
    requires InRange(cs, fs) && g < |fs|
    decreases fuel
  {
    if IsZero(fs[g].dijDist) then true
    else if fs[g].outflow < u then true
    else if Up(cs, fs, g).None? then false
    else if fuel == 0 then false
    else HasPath(cs, fs, u, Up(cs, fs, g).value, fuel - 1)
  }

  /** The tree links of all facilities, as Up gives them. */
  function Links(cs: seq<Customer>, fs: seq<Facility>): (l: seq<Option<nat>>)
    requires InRange(cs, fs)
    ensures |l| == |fs| && forall g | 0 <= g < |fs| :: l[g] == Up(cs, fs, g)
  {
    seq(|fs|, g requires 0 <= g < |fs| => Up(cs, fs, g))
  }

  /** Which facilities have spare capacity. */
  function Open(fs: seq<Facility>, u: nat): (o: seq<bool>)
    ensures |o| == |fs| && forall g | 0 <= g < |fs| :: o[g] == (fs[g].outflow < u)
  {
    seq(|fs|, g requires 0 <= g < |fs| => fs[g].outflow < u)
  }

  ghost predicate LinksOk(links: seq<Option<nat>>, open: seq<bool>)
  {
    |open| == |links| && forall g | 0 <= g < |links| :: links[g].Some? ==> links[g].value < |links|
  }

  /**
   * The reference reading of has_path: within k steps up the tree, g reaches
   * a facility with spare capacity. Distances play no part.
   */
  ghost predicate Reach(links: seq<Option<nat>>, open: seq<bool>, g: nat, k: nat)
    requires LinksOk(links, open) && g < |links|
    decreases k
  {
    open[g] || (links[g].Some? && k > 0 && Reach(links, open, links[g].value, k - 1))
  }

  /** The facility j steps up from g, if the tree goes that far. */
  function Chain(links: seq<Option<nat>>, open: seq<bool>, g: nat, j: nat): (r: Option<nat>)
    requires LinksOk(links, open) && g < |links|
    ensures r.Some? ==> r.value < |links|
    decreases j
  {
    if j == 0 then Some(g)
    else if links[g].None? then None
    else Chain(links, open, links[g].value, j - 1)
  }

  /** An open facility lies at most k steps up from g. */
  ghost predicate OpenWithin(links: seq<Option<nat>>, open: seq<bool>, g: nat, k: nat)
    requires LinksOk(links, open) && g < |links|
  {
    exists j :: 0 <= j <= k && Chain(links, open, g, j).Some? && open[Chain(links, open, g, j).value]
  }

  /** Reach asks for an open facility at most k steps up. */
  lemma {:induction false} ReachChain(links: seq<Option<nat>>, open: seq<bool>, g: nat, k: nat)
    requires LinksOk(links, open) && g < |links|
    ensures Reach(links, open, g, k) <==> OpenWithin(links, open, g, k)
    decreases k
  {
    assert Chain(links, open, g, 0) == Some(g);
    if Reach(links, open, g, k) && !open[g] {
      var p := links[g].value;
      ReachChain(links, open, p, k - 1);
      var j :| 0 <= j <= k - 1 && Chain(links, open, p, j).Some? && open[Chain(links, open, p, j).value];
      assert Chain(links, open, g, j + 1) == Chain(links, open, p, j);
    }
    if OpenWithin(links, open, g, k) {
      var j :| 0 <= j <= k && Chain(links, open, g, j).Some? && open[Chain(links, open, g, j).value];
      if j > 0 {
        var p := links[g].value;
        assert Chain(links, open, g, j) == Chain(links, open, p, j - 1);
        ReachChain(links, open, p, k - 1);
        assert OpenWithin(links, open, p, k - 1);
      }
    }
  }

  /** Walking a steps and then t steps is walking a + t steps. */
  lemma {:induction false} ChainAdd(links: seq<Option<nat>>, open: seq<bool>, g: nat, a: nat, t: nat)
    requires LinksOk(links, open) && g < |links| && Chain(links, open, g, a).Some?
    ensures Chain(links, open, g, a + t) == Chain(links, open, Chain(links, open, g, a).value, t)
    decreases a
  {
    if a > 0 {
      ChainAdd(links, open, links[g].value, a - 1, t);
    }
  }

  /** The facilities met on the first j steps up, all of them present. */
  function ChainSeq(links: seq<Option<nat>>, open: seq<bool>, g: nat, j: nat): (s: seq<nat>)
    requires LinksOk(links, open) && g < |links| && Chain(links, open, g, j).Some?
    ensures |s| == j + 1
    ensures forall i | 0 <= i <= j :: Chain(links, open, g, i) == Some(s[i])
    decreases j
  {
    if j == 0 then [g]
    else [g] + ChainSeq(links, open, links[g].value, j - 1)
  }

  /** A list of distinct numbers below n has at most n entries. */
  lemma {:induction false} Pigeonhole(s: seq<nat>, n: nat)
    requires FibHeap.NoDup(s) && forall i | 0 <= i < |s| :: s[i] < n
    ensures |s| <= n
    decreases n
  {
    if s == [] {
    } else if n - 1 in s {
      assert s[0] < n;
      FibHeap.RemoveOnce(s, n - 1);
      var r := FibHeap.Remove(s, n - 1);
      forall i | 0 <= i < |r|
        ensures r[i] < n - 1
      {
        assert r[i] in r;
      }
      Pigeonhole(r, n - 1);
    } else {
      assert s[0] < n;
      forall i | 0 <= i < |s|
        ensures s[i] < n - 1
      {
        assert s[i] in s;
      }
      Pigeonhole(s, n - 1);
    }
  }

  /**
   * An open facility j steps up can also be found fewer than |links| steps
   * up: a longer walk repeats a facility and the loop between can be skipped.
   */
  lemma {:induction false} ShortenChain(links: seq<Option<nat>>, open: seq<bool>, g: nat, j: nat)
      returns (j': nat)
    requires LinksOk(links, open) && g < |links|
    requires Chain(links, open, g, j).Some? && open[Chain(links, open, g, j).value]
    ensures j' < |links| && Chain(links, open, g, j').Some? && open[Chain(links, open, g, j').value]
    decreases j
  {
    if j < |links| {
      return j;
    }
    var s := ChainSeq(links, open, g, j);
    if FibHeap.NoDup(s) {
      forall i | 0 <= i < |s|
        ensures s[i] < |links|
      {
        assert Chain(links, open, g, i) == Some(s[i]);
      }
      Pigeonhole(s, |links|);
      assert false;
    }
    var a, b :| 0 <= a < b < |s| && s[a] == s[b];
    assert Chain(links, open, g, a) == Some(s[a]) && Chain(links, open, g, b) == Some(s[b]);
    ChainAdd(links, open, g, b, j - b);
    ChainAdd(links, open, g, a, j - b);
    j' := ShortenChain(links, open, g, a + (j - b));
  }

  /** Reach with any number of steps is Reach within |links| - 1 steps. */
  lemma ReachBound(links: seq<Option<nat>>, open: seq<bool>, g: nat, k: nat)
    requires LinksOk(links, open) && g < |links| && Reach(links, open, g, k)
    ensures Reach(links, open, g, |links| - 1)
  {
    ReachChain(links, open, g, k);
    var j :| 0 <= j <= k && Chain(links, open, g, j).Some? && open[Chain(links, open, g, j).value];
    var j' := ShortenChain(links, open, g, j);
    ReachChain(links, open, g, |links| - 1);
    assert OpenWithin(links, open, g, |links| - 1);
  }

  lemma {:induction false} ReachMonotone(links: seq<Option<nat>>, open: seq<bool>, g: nat, k: nat, k': nat)
    requires LinksOk(links, open) && g < |links| && k <= k' && Reach(links, open, g, k)
    ensures Reach(links, open, g, k')
    decreases k
  {
    if !open[g] {
      ReachMonotone(links, open, links[g].value, k - 1, k' - 1);
    }
  }

  /** has_path answers true wherever the reference does, whatever the distances. */
  lemma {:induction false} ReachHasPath(cs: seq<Customer>, fs: seq<Facility>, u: nat, g: nat, k: nat)
    requires InRange(cs, fs) && g < |fs| && Reach(Links(cs, fs), Open(fs, u), g, k)
    ensures HasPath(cs, fs, u, g, k)
    decreases k
  {
    if !IsZero(fs[g].dijDist) && !(fs[g].outflow < u) {
      ReachHasPath(cs, fs, u, Up(cs, fs, g).value, k - 1);
    }
  }

  /**
   * Where every facility at distance zero reaches an open facility within K
   * steps, has_path with k steps implies the reference with k + K steps.
   */
  lemma {:induction false} HasPathReach(cs: seq<Customer>, fs: seq<Facility>, u: nat, g: nat, k: nat, K: nat)
    requires InRange(cs, fs) && g < |fs|
    requires forall h | 0 <= h < |fs| && IsZero(fs[h].dijDist) :: Reach(Links(cs, fs), Open(fs, u), h, K)
    requires HasPath(cs, fs, u, g, k)
    ensures Reach(Links(cs, fs), Open(fs, u), g, k + K)
    decreases k
  {
    var links, open := Links(cs, fs), Open(fs, u);
    if IsZero(fs[g].dijDist) {
      ReachMonotone(links, open, g, K, k + K);
    } else if !(fs[g].outflow < u) {
      HasPathReach(cs, fs, u, Up(cs, fs, g).value, k - 1, K);
    }
  }

  /**
   * With no facility at distance zero, has_path with |fs| steps is exactly
   * the reference: a walk up the tree to a facility with spare capacity.
   */
  lemma HasPathExact(cs: seq<Customer>, fs: seq<Facility>, u: nat, g: nat, k: nat)
    requires InRange(cs, fs) && g < |fs| && |fs| <= k
    requires forall h | 0 <= h < |fs| && IsZero(fs[h].dijDist) :: Reach(Links(cs, fs), Open(fs, u), h, |fs|)
    ensures HasPath(cs, fs, u, g, k) <==> Reach(Links(cs, fs), Open(fs, u), g, |fs|)
  {
    var links, open := Links(cs, fs), Open(fs, u);
    if HasPath(cs, fs, u, g, k) {
      HasPathReach(cs, fs, u, g, k, |fs|);
      ReachBound(links, open, g, k + |fs|);
      ReachMonotone(links, open, g, |fs| - 1, |fs|);
    }
    if Reach(links, open, g, |fs|) {
      ReachMonotone(links, open, g, |fs|, k);
      ReachHasPath(cs, fs, u, g, k);
    }
  }
}
