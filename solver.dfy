/**
 * The assignment step of the solver (solver.cpp): a successive shortest
 * path computation of a capacitated assignment of customers to facilities.
 * Every facility may serve at most `u` customers. A Dijkstra search over the
 * residual graph, in which an assigned customer is only passed through as a
 * shortcut to its facility, builds a tree of tentative predecessors; the
 * potentials `pi` keep the reduced edge costs; `supply` walks the tree
 * backwards from an unassigned customer and reassigns customers along it.
 */
module Solver {
  import opened Wrappers
  import opened Numbers
  import opened Records
  import opened Flow
  import FibHeap

  /** The answer of `supply`, with the crash of a missing tree link made explicit. */
  datatype Supply = Supplied | NotSupplied | MissingParent

  /** How the successive shortest path loop ended. */
  datatype SspResult = Finished | OutOfFuel | Crashed

  /** Facility g's heap node, if any, holds g under g's current distance. */
  ghost predicate NodeLinked(fs: seq<Facility>, nodes: FibHeap.Arena, g: nat)
    requires g < |fs|
  {
    fs[g].heapNode.Some? ==>
      var h := fs[g].heapNode.value;
      h in nodes && nodes[h].content == g && nodes[h].key == fs[g].dijDist
  }

  /**
   * The heap holds a queued facility under its distance, so comparing two heap
   * keys is Facility::operator< on the facilities, and a key of 0, which `add`
   * files in `zeros`, is one for which is_minimal_possible holds.
   */
  lemma HeapOrder(fs: seq<Facility>, nodes: FibHeap.Arena, g: nat, h: nat)
    requires g < |fs| && h < |fs| && NodeLinked(fs, nodes, g) && NodeLinked(fs, nodes, h)
    requires fs[g].heapNode.Some? && fs[h].heapNode.Some?
    ensures fs[g].heapNode.value in nodes && fs[h].heapNode.value in nodes
    ensures Less(nodes[fs[g].heapNode.value].key, nodes[fs[h].heapNode.value].key) <==> FacilityLess(fs[g], fs[h])
    ensures IsZero(nodes[fs[g].heapNode.value].key) <==> IsMinimalPossible(fs[g])
  {
  }

  /**
   * The shape of the solver's state: indices in range, no facility above
   * capacity, and the heap nodes of the facilities agree with them.
   */
  ghost predicate Shaped(cs: seq<Customer>, fs: seq<Facility>, u: nat, nodes: FibHeap.Arena)
  {
    && InRange(cs, fs)
    && (forall g | 0 <= g < |fs| :: fs[g].outflow <= u)
    && (forall g | 0 <= g < |fs| :: NodeLinked(fs, nodes, g))
    && (forall h | h in nodes :: nodes[h].content < |fs|)
  }

  /**
   * The shortest-path tree agrees with the flow: a facility reached through a
   * customer is the facility that customer is assigned to.
   */
  ghost predicate TreeOk(cs: seq<Customer>, fs: seq<Facility>, g: nat)
    requires InRange(cs, fs) && g < |fs|
  {
    fs[g].dijParent.Some? ==> cs[fs[g].dijParent.value].flowParent == Some(g)
  }

  ghost predicate Trees(cs: seq<Customer>, fs: seq<Facility>)
    requires InRange(cs, fs)
  {
    forall g | 0 <= g < |fs| :: TreeOk(cs, fs, g)
  }

  /**
   * What `supply` may change: tree links (only by clearing them), the
   * assignment of customers and the outflow of facilities.
   */
  ghost predicate SupplyFrame(cs: seq<Customer>, fs: seq<Facility>, cs': seq<Customer>, fs': seq<Facility>)
  {
    && |cs'| == |cs| && |fs'| == |fs|
    && (forall x | 0 <= x < |cs| ::
          cs'[x] == cs[x].(dijParent := cs'[x].dijParent, flowParent := cs'[x].flowParent) &&
          (cs'[x].dijParent == cs[x].dijParent || cs'[x].dijParent.None?))
    && (forall g | 0 <= g < |fs| ::
          fs'[g] == fs[g].(dijParent := fs'[g].dijParent, outflow := fs'[g].outflow) &&
          (fs'[g].dijParent == fs[g].dijParent || fs'[g].dijParent.None?))
  }

  /** The customers that still have a tree link: what `supply` consumes. */
  ghost function Parented(cs: seq<Customer>): set<nat>
  {
    set x | 0 <= x < |cs| && cs[x].dijParent.Some?
  }

  /** Swapping entry i with the last one and dropping the last removes exactly entry i. */
  lemma SwapPop(s: seq<nat>, i: nat)
    requires i < |s| && FibHeap.NoDup(s)
    ensures var s' := s[i := s[|s| - 1]][..|s| - 1];
      && |s'| == |s| - 1 && FibHeap.NoDup(s')
      && multiset(s') + multiset{s[i]} == multiset(s)
      && forall x :: x in s' <==> x in s && x != s[i]
  {
    var s' := s[i := s[|s| - 1]][..|s| - 1];
    assert forall k | 0 <= k < |s'| :: s'[k] == s[if k == i then |s| - 1 else k];
    forall k, l | 0 <= k < l < |s'|
      ensures s'[k] != s'[l]
    {
      var K, L := if k == i then |s| - 1 else k, if l == i then |s| - 1 else l;
      if K < L {
        assert s[K] != s[L];
      } else {
        assert s[L] != s[K];
      }
    }
    forall x
      ensures x in s' <==> x in s && x != s[i]
    {
      if x in s' {
        var k :| 0 <= k < |s'| && s'[k] == x;
        var K := if k == i then |s| - 1 else k;
        assert s[K] == x && K != i;
        if K < i {
          assert s[K] != s[i];
        } else {
          assert s[i] != s[K];
        }
      }
      if x in s && x != s[i] {
        var k :| 0 <= k < |s| && s[k] == x;
        if k == |s| - 1 {
          assert s'[i] == x;
        } else {
          assert s'[k] == x;
        }
      }
    }
    SwapPopMultiset(s, i);
  }

  lemma SwapPopMultiset(s: seq<nat>, i: nat)
    requires i < |s|
    ensures multiset(s[i := s[|s| - 1]][..|s| - 1]) + multiset{s[i]} == multiset(s)
  {
    var s' := s[i := s[|s| - 1]][..|s| - 1];
    if i == |s| - 1 {
      assert s[..|s| - 1] + [s[i]] == s;
      assert s' == s[..|s| - 1];
    } else {
      assert s == s[..i] + [s[i]] + s[i + 1..|s| - 1] + [s[|s| - 1]];
      assert s' == s[..i] + [s[|s| - 1]] + s[i + 1..|s| - 1];
    }
  }

  /** Assigning one unassigned customer raises the number of assigned customers by one. */
  lemma {:induction false} AssignOne(cs: seq<Customer>, cs': seq<Customer>, c: nat)
    requires |cs| == |cs'| && c < |cs|
    requires cs[c].flowParent.None? && cs'[c].flowParent.Some?
    requires forall x | 0 <= x < |cs| && x != c :: cs'[x].flowParent.Some? <==> cs[x].flowParent.Some?
    ensures Assigned(cs') == Assigned(cs) + 1
  {
    if c == 0 {
      AssignNone(cs[1..], cs'[1..]);
    } else {
      AssignOne(cs[1..], cs'[1..], c - 1);
    }
  }

  lemma {:induction false} AssignNone(cs: seq<Customer>, cs': seq<Customer>)
    requires |cs| == |cs'|
    requires forall x | 0 <= x < |cs| :: cs'[x].flowParent.Some? <==> cs[x].flowParent.Some?
    ensures Assigned(cs') == Assigned(cs)
  {
    if cs != [] {
      AssignNone(cs[1..], cs'[1..]);
    }
  }

  /** Nobody assigned, so nobody counted. */
  lemma {:induction false} CountNone(cs: seq<Customer>, g: nat)
    requires forall x | 0 <= x < |cs| :: cs[x].flowParent.None?
    ensures CountAt(cs, g) == 0
  {
    if cs != [] {
      CountNone(cs[1..], g);
    }
  }

  class Solver {
    /** The capacity of every facility. */
    const u: nat
    var customers: seq<Customer>
    var facilities: seq<Facility>
    const heap: FibHeap.Heap

    ghost predicate Shape()
      reads this, heap
    {
      Shaped(customers, facilities, u, heap.nodes)
    }

    /**
     * The solver's invariant: a valid heap, the shape above, the tree agrees
     * with the flow, and every outflow counts the customers assigned.
     */
    ghost predicate Valid()
      reads this, heap
    {
      && heap.Valid()
      && Shape()
      && Trees(customers, facilities)
      && Counted(customers, facilities)
    }

    /**
     * Solver::Solver: one customer per demand point and one facility per
     * facility position, nobody assigned, nothing queued.
     */
    constructor (u: nat, D: seq<Point>, I: seq<Point>)
      ensures Valid() && heap.nodes == map[] && this.u == u
      ensures |customers| == |D| && forall x | 0 <= x < |D| :: customers[x] == Customer(D[x], PlusInf, None, None)
      ensures |facilities| == |I| &&
        forall g | 0 <= g < |I| :: facilities[g] == Facility(I[g], PlusInf, Finite(0.0), None, None, 0)
    {
      this.u := u;
      heap := new FibHeap.Heap();
      customers := seq(|D|, x requires 0 <= x < |D| => Customer(D[x], PlusInf, None, None));
      facilities := seq(|I|, g requires 0 <= g < |I| => Facility(I[g], PlusInf, Finite(0.0), None, None, 0));
      new;
      forall g | 0 <= g < |facilities|
        ensures CountAt(customers, g) == facilities[g].outflow
      {
        CountNone(customers, g);
      }
    }
    /**
     * Solver::supply: consume c's tree link to facility f; if f has spare
     * capacity, assign c to f; otherwise try to supply f's own tree customer
     * and, if that works, hand f's place to c. Tree links met on the way are
     * cleared whether or not the walk succeeds.
     */
    method Supply(c: nat) returns (r: Supply, ghost last: nat)
      requires Shape() && Trees(customers, facilities) && c < |customers|
      modifies this
      decreases Parented(customers)
      ensures Shape()
      ensures SupplyPost(old(customers), old(facilities), customers, facilities, u, c, r, last)
    {
      ghost var cs0, fs0 := customers, facilities;
      if customers[c].dijParent.None? {
        r, last := MissingParent, 0;
        SupplyMissing(cs0, fs0, u, c);
      } else {
        var f := customers[c].dijParent.value;
        customers := customers[c := customers[c].(dijParent := None)];
        if facilities[f].outflow < u {
          customers := customers[c := customers[c].(flowParent := Some(f))];
          facilities := facilities[f := facilities[f].(outflow := facilities[f].outflow + 1)];
          r, last := Supplied, f;
          SupplyBase(cs0, fs0, u, c);
        } else if facilities[f].dijParent.None? {
          facilities := facilities[f := facilities[f].(dijParent := None)];
          r, last := NotSupplied, 0;
          SupplyDeadEnd(cs0, fs0, u, c);
        } else {
          var c2 := facilities[f].dijParent.value;
          UnlinkKeepsTrees(cs0, fs0, c);
          assert c !in Parented(customers) && c in Parented(cs0);
          var r2, last2 := Supply(c2);
          ghost var cs2, fs2 := customers, facilities;
          if r2 == Supplied {
            customers := customers[c := customers[c].(flowParent := Some(f))];
            facilities := facilities[f := facilities[f].(dijParent := None)];
            r, last := Supplied, last2;
            SupplyHandOver(cs0, fs0, u, c, cs2, fs2, last2);
          } else {
            if r2 == NotSupplied {
              facilities := facilities[f := facilities[f].(dijParent := None)];
            }
            r, last := r2, 0;
            SupplyFailed(cs0, fs0, u, c, cs2, fs2, r2, last2);
          }
        }
      }
      SupplyShaped(cs0, fs0, customers, facilities, u, heap.nodes, c, r, last);
    }

    /**
     * Solver::increase_flow: try to supply every customer of `unsupplied` in
     * turn; one that was supplied is swapped with the last entry and dropped,
     * the others stay. A missing tree link stops the pass (`crashed`).
     */
    method IncreaseFlow(unsupplied: seq<nat>) returns (rest: seq<nat>, crashed: bool)
      requires Valid() && FibHeap.NoDup(unsupplied)
      requires forall x | x in unsupplied :: x < |customers| && customers[x].flowParent.None?
      modifies this
      ensures Valid()
      ensures SupplyFrame(old(customers), old(facilities), customers, facilities)
      ensures FibHeap.NoDup(rest) && multiset(rest) <= multiset(unsupplied)
      ensures forall x | x in unsupplied :: x in rest <==> customers[x].flowParent.None?
      ensures forall x | 0 <= x < |customers| && x !in unsupplied ::
        customers[x].flowParent.Some? <==> old(customers[x].flowParent).Some?
      ensures Assigned(customers) + |rest| == old(Assigned(customers)) + |unsupplied|
    {
      rest, crashed := unsupplied, false;
      var i := 0;
      while i < |rest|
        invariant Valid()
        invariant SupplyFrame(old(customers), old(facilities), customers, facilities)
        invariant i <= |rest| && FibHeap.NoDup(rest) && multiset(rest) <= multiset(unsupplied)
        invariant forall x | x in unsupplied :: x < |customers| && (x in rest <==> customers[x].flowParent.None?)
        invariant forall x | 0 <= x < |customers| && x !in unsupplied ::
          customers[x].flowParent.Some? <==> old(customers[x].flowParent).Some?
        invariant Assigned(customers) + |rest| == old(Assigned(customers)) + |unsupplied|
        decreases |rest| - i
      {
        var c := rest[i];
        assert c in multiset(unsupplied);
        ghost var cs0, fs0 := customers, facilities;
        var r, last := Supply(c);
        SupplyKeepsValid(cs0, fs0, customers, facilities, u, c, r, last);
        SupplyFrameTrans(old(customers), old(facilities), cs0, fs0, customers, facilities);
        if r == Supplied {
          SwapPop(rest, i);
          rest := rest[i := rest[|rest| - 1]][..|rest| - 1];
        } else if r == MissingParent {
          crashed := true;
          return;
        } else {
          i := i + 1;
        }
      }
    }

    /**
     * Solver::dij_init: every customer gets an infinite distance and loses
     * its tree link; every facility loses its tree link; a facility with
     * spare capacity starts at distance 0 and is queued, a full one starts at
     * infinity and is not queued.
     */
    method DijInit()
      requires heap.Valid() && Shape() && Counted(customers, facilities)
      modifies this, heap
      ensures Valid()
      ensures |customers| == |old(customers)| && forall x | 0 <= x < |customers| ::
        customers[x] == old(customers[x]).(dijDist := PlusInf, dijParent := None)
      ensures |facilities| == |old(facilities)| && forall g | 0 <= g < |facilities| ::
        && facilities[g] == old(facilities[g]).(dijParent := None, heapNode := facilities[g].heapNode,
             dijDist := if old(facilities[g].outflow) < u then Finite(0.0) else PlusInf)
        && (facilities[g].heapNode.Some? <==> old(facilities[g].outflow) < u)
    {
      ClearCustomers();
      CountSameAll(old(customers), customers);
      ghost var cs1 := customers;
      var g := 0;
      while g < |facilities|
        invariant heap.Valid() && g <= |facilities| == |old(facilities)| && customers == cs1
        invariant Shape()
        invariant forall k | 0 <= k < |facilities| ::
          facilities[k] == (if k < g then old(facilities[k]).(dijParent := None, heapNode := facilities[k].heapNode,
                                            dijDist := if old(facilities[k].outflow) < u then Finite(0.0) else PlusInf)
                            else old(facilities[k]))
        invariant forall k | 0 <= k < g :: facilities[k].heapNode.Some? <==> old(facilities[k].outflow) < u
      {
        InitFacility(g);
        g := g + 1;
      }
    }

    /** The first loop of Solver::dij_init: every customer loses its distance and tree link. */
    method ClearCustomers()
      modifies this
      ensures facilities == old(facilities)
      ensures |customers| == |old(customers)| && forall x | 0 <= x < |customers| ::
        customers[x] == old(customers[x]).(dijDist := PlusInf, dijParent := None)
    {
      var i := 0;
      while i < |customers|
        invariant i <= |customers| == |old(customers)| && facilities == old(facilities)
        invariant forall x | 0 <= x < |customers| ::
          customers[x] == (if x < i then old(customers[x]).(dijDist := PlusInf, dijParent := None) else old(customers[x]))
      {
        customers := customers[i := customers[i].(dijDist := PlusInf, dijParent := None)];
        i := i + 1;
      }
    }

    /**
     * One round of the second loop of Solver::dij_init: a facility with spare
     * capacity is queued at distance 0, any other one gets distance +infinity.
     */
    method InitFacility(g: nat)
      requires heap.Valid() && Shape() && g < |facilities|
      modifies this, heap
      ensures heap.Valid() && Shape() && customers == old(customers) && |facilities| == |old(facilities)|
      ensures facilities == old(facilities)[g := old(facilities[g]).(dijParent := None, heapNode := facilities[g].heapNode,
                                                dijDist := if old(facilities[g].outflow) < u then Finite(0.0) else PlusInf)]
      ensures facilities[g].heapNode.Some? <==> old(facilities[g].outflow) < u
    {
      ghost var fs0, nodes0 := facilities, heap.nodes;
      if facilities[g].outflow < u {
        var h := heap.Add(g, Finite(0.0));
        facilities := facilities[g := facilities[g].(dijParent := None, dijDist := Finite(0.0), heapNode := Some(h))];
      } else {
        facilities := facilities[g := facilities[g].(dijParent := None, dijDist := PlusInf, heapNode := None)];
      }
      ShapedUpdate(customers, fs0, u, nodes0, heap.nodes, g, facilities[g]);
    }

    /**
     * The first two loops of Solver::dij_reinit: the customers still
     * unsupplied and all facilities get an infinite distance, and no
     * facility is queued.
     */
    method ForgetDistances(unsupplied: seq<nat>)
      requires Valid() && heap.nodes == map[]
      requires forall x | x in unsupplied :: x < |customers|
      modifies this
      ensures Valid()
      ensures |customers| == |old(customers)| && forall x | 0 <= x < |customers| ::
        customers[x] == if x in unsupplied then old(customers[x]).(dijDist := PlusInf) else old(customers[x])
      ensures |facilities| == |old(facilities)| && forall g | 0 <= g < |facilities| ::
        facilities[g] == old(facilities[g]).(dijDist := PlusInf, heapNode := None)
    {
      var i := 0;
      while i < |unsupplied|
        invariant i <= |unsupplied| && |customers| == |old(customers)| && facilities == old(facilities)
        invariant forall x | 0 <= x < |customers| ::
          customers[x] == (if x in unsupplied[..i] then old(customers[x]).(dijDist := PlusInf) else old(customers[x]))
      {
        var x := unsupplied[i];
        assert x in unsupplied;
        customers := customers[x := customers[x].(dijDist := PlusInf)];
        assert unsupplied[..i + 1] == unsupplied[..i] + [x];
        i := i + 1;
      }
      assert unsupplied[..i] == unsupplied;
      ghost var cs1 := customers;
      var g := 0;
      while g < |facilities|
        invariant g <= |facilities| == |old(facilities)| && customers == cs1
        invariant forall k | 0 <= k < |facilities| ::
          facilities[k] == (if k < g then old(facilities[k]).(dijDist := PlusInf, heapNode := None) else old(facilities[k]))
      {
        facilities := facilities[g := facilities[g].(dijDist := PlusInf, heapNode := None)];
        g := g + 1;
      }
      forall k | 0 <= k < |facilities| ensures TreeOk(customers, facilities, k) {
        assert TreeOk(old(customers), old(facilities), k);
      }
      CountSameAll(old(customers), customers);
    }

    /**
     * Solver::dij_reinit: after an augmentation, forget the distances of the
     * customers still unsupplied and of every facility, then queue at
     * distance 0 exactly the facilities `has_path` accepts: those from which
     * the surviving tree links lead to a facility with spare capacity.
     */
    method DijReinit(unsupplied: seq<nat>)
      requires Valid() && heap.nodes == map[]
      requires forall x | x in unsupplied :: x < |customers|
      modifies this, heap
      ensures Valid()
      ensures |customers| == |old(customers)| && forall x | 0 <= x < |customers| ::
        customers[x] == if x in unsupplied then old(customers[x]).(dijDist := PlusInf) else old(customers[x])
      ensures |facilities| == |old(facilities)| && forall g | 0 <= g < |facilities| ::
        var queued := Reach(Links(old(customers), old(facilities)), Open(old(facilities), u), g, |facilities|);
        && facilities[g] == old(facilities[g]).(heapNode := facilities[g].heapNode,
             dijDist := if queued then Finite(0.0) else PlusInf)
        && (facilities[g].heapNode.Some? <==> queued)
    {
      ghost var links, open := Links(customers, facilities), Open(facilities, u);
      ForgetDistances(unsupplied);
      ghost var cs1, fs1 := customers, facilities;
      SameLinks(old(customers), old(facilities), cs1, fs1, u);
      var g := 0;
      while g < |facilities|
        invariant heap.Valid() && g <= |facilities| == |fs1| && customers == cs1
        invariant Shape()
        invariant forall k | 0 <= k < |facilities| ::
          var queued := k < g && Reach(links, open, k, |facilities|);
          && facilities[k] == fs1[k].(heapNode := facilities[k].heapNode, dijDist := if queued then Finite(0.0) else PlusInf)
          && (facilities[k].heapNode.Some? <==> queued)
      {
        SameLinks(cs1, fs1, customers, facilities, u);
        HasPathExact(customers, facilities, u, g, |facilities|);
        if HasPath(customers, facilities, u, g, |facilities|) {
          Enqueue(g);
        }
        g := g + 1;
      }
      forall k | 0 <= k < |facilities| ensures TreeOk(customers, facilities, k) {
        assert TreeOk(cs1, fs1, k);
      }
      CountSameAll(cs1, customers);
    }

    /** The third loop of Solver::dij_reinit, for one facility: queue it at distance 0. */
    method Enqueue(g: nat)
      requires heap.Valid() && Shape() && g < |facilities| && facilities[g].heapNode.None?
      modifies this, heap
      ensures heap.Valid() && Shape() && customers == old(customers) && |facilities| == |old(facilities)|
      ensures facilities == old(facilities)[g := old(facilities[g]).(dijDist := Finite(0.0), heapNode := facilities[g].heapNode)]
      ensures facilities[g].heapNode.Some?
    {
      ghost var fs0, nodes0 := facilities, heap.nodes;
      var h := heap.Add(g, Finite(0.0));
      facilities := facilities[g := facilities[g].(dijDist := Finite(0.0), heapNode := Some(h))];
      ShapedAdd(customers, fs0, u, nodes0, heap.nodes, g, facilities[g], h);
    }

    /**
     * The first loop of Solver::dij_algorithm: the customers the search
     * must visit, in order. An assigned customer whose facility is already
     * at distance 0 is skipped, since the shortcut through it cannot improve
     * that facility.
     */
    method NotIgnoredCustomers() returns (ids: seq<nat>)
      requires InRange(customers, facilities)
      ensures forall k | 0 <= k < |ids| :: ids[k] < |customers|
      ensures forall k, l | 0 <= k < l < |ids| :: ids[k] < ids[l]
      ensures forall x: nat :: x in ids <==> x < |customers| && NotIgnored(customers, facilities, x)
    {
      ids := [];
      var x := 0;
      while x < |customers|
        invariant x <= |customers|
        invariant forall k | 0 <= k < |ids| :: ids[k] < x
        invariant forall k, l | 0 <= k < l < |ids| :: ids[k] < ids[l]
        invariant forall y: nat :: y in ids <==> y < x && NotIgnored(customers, facilities, y)
      {
        var c := customers[x];
        if c.flowParent.None? || !IsZero(facilities[c.flowParent.value].dijDist) {
          ids := ids + [x];
        }
        x := x + 1;
      }
    }

    /**
     * The inner loop of Solver::dij_algorithm: relax the edges from the
     * extracted facility f through every customer of `visit`. Afterwards all
     * those edges are relaxed, and so is every edge that was relaxed before
     * out of a facility that is still not queued.
     */
    method RelaxAll(f: nat, visit: seq<nat>)
      requires Valid() && f < |facilities| && facilities[f].heapNode.None?
      requires forall k | 0 <= k < |visit| :: visit[k] < |customers|
      requires forall g, k | 0 <= g < |facilities| && 0 <= k < |visit| && facilities[g].heapNode.None? && g != f ::
        Relaxed(customers, facilities, g, visit[k])
      modifies this, heap
      ensures Valid() && SearchFrame(old(customers), old(facilities), customers, facilities)
      ensures Settled(customers, facilities, visit)
    {
      var j := 0;
      while j < |visit|
        invariant Valid() && SearchFrame(old(customers), old(facilities), customers, facilities)
        invariant j <= |visit| && facilities[f] == old(facilities[f])
        invariant forall g, k | 0 <= g < |facilities| && 0 <= k < |visit| && facilities[g].heapNode.None? &&
                                (g != f || k < j) ::
          Relaxed(customers, facilities, g, visit[k])
      {
        ghost var cs1, fs1 := customers, facilities;
        RelaxStep(f, visit, j);
        SearchFrameTrans(old(customers), old(facilities), cs1, fs1, customers, facilities);
        j := j + 1;
      }
    }

    /** One round of the inner loop: the edge from f through visit[j] joins the relaxed ones. */
    method RelaxStep(f: nat, visit: seq<nat>, j: nat)
      requires Valid() && f < |facilities| && facilities[f].heapNode.None?
      requires j < |visit| && forall k | 0 <= k < |visit| :: visit[k] < |customers|
      requires forall g, k | 0 <= g < |facilities| && 0 <= k < |visit| && facilities[g].heapNode.None? &&
                             (g != f || k < j) ::
        Relaxed(customers, facilities, g, visit[k])
      modifies this, heap
      ensures Valid() && SearchFrame(old(customers), old(facilities), customers, facilities)
      ensures facilities[f] == old(facilities[f])
      ensures forall g, k | 0 <= g < |facilities| && 0 <= k < |visit| && facilities[g].heapNode.None? &&
                            (g != f || k < j + 1) ::
        Relaxed(customers, facilities, g, visit[k])
    {
      ghost var cs1, fs1 := customers, facilities;
      RelaxEffect(cs1, fs1, f, visit[j]);
      RelaxCustomer(f, visit[j]);
      assert SearchFrame(cs1, fs1, customers, facilities) by {
        forall g | 0 <= g < |facilities|
          ensures facilities[g] == fs1[g].(dijDist := facilities[g].dijDist, dijParent := facilities[g].dijParent,
                                           heapNode := facilities[g].heapNode)
        {
          assert facilities[g] == RelaxFacilities(cs1, fs1, f, visit[j])[g].(heapNode := facilities[g].heapNode);
        }
      }
      RelaxKeepsRelaxed(cs1, fs1, customers, facilities, visit, f, j);
    }

    /**
     * Solver::dij_algorithm: extract facilities from the heap until it is
     * empty and relax every edge out of each extracted one. The loop of the
     * source runs until the heap is empty; here it runs at most `fuel`
     * rounds and reports whether the heap was emptied.
     *
     * When it was, every edge from a facility through a customer the search
     * visits is relaxed: no distance can be improved along one more edge.
     * Distances are only ever lowered, and the flow is not touched.
     */
    method DijAlgorithm(fuel: nat) returns (done: bool)
      requires Valid()
      requires forall g | 0 <= g < |facilities| :: facilities[g].heapNode.None? ==> facilities[g].dijDist == PlusInf
      modifies this, heap
      ensures Valid() && SearchFrame(old(customers), old(facilities), customers, facilities)
      ensures done ==> heap.nodes == map[] && forall g | 0 <= g < |facilities| :: facilities[g].heapNode.None?
      ensures done ==> forall g, c | 0 <= g < |facilities| && 0 <= c < |customers| &&
                                   NotIgnored(old(customers), old(facilities), c) ::
        Relaxed(customers, facilities, g, c)
    {
      var visit := NotIgnoredCustomers();
      forall g, k | 0 <= g < |facilities| && 0 <= k < |visit| && facilities[g].heapNode.None?
        ensures Relaxed(customers, facilities, g, visit[k])
      {
        InfiniteRelaxed(customers, facilities, g, visit[k]);
      }
      var steps := fuel;
      done := false;
      while !done
        invariant Valid() && SearchFrame(old(customers), old(facilities), customers, facilities)
        invariant forall k | 0 <= k < |visit| :: visit[k] < |customers|
        invariant Settled(customers, facilities, visit)
        invariant done ==> heap.nodes == map[]
        decreases steps, if done then 0 else 1
      {
        if steps == 0 {
          return;
        }
        ghost var cs0 := customers;
        var r := TakeMin(visit);
        if r.None? {
          done := true;
        } else {
          ghost var fs1 := facilities;
          RelaxAll(r.value, visit);
          SearchFrameTrans(old(customers), old(facilities), cs0, fs1, customers, facilities);
          steps := steps - 1;
        }
      }
      forall g | 0 <= g < |facilities| ensures facilities[g].heapNode.None? {
        assert NodeLinked(facilities, heap.nodes, g);
      }
    }

    /**
     * One extraction of Solver::dij_algorithm: the facility with the least
     * distance leaves the heap, None when the heap is empty. Every edge out of
     * another unqueued facility stays relaxed.
     */
    method TakeMin(visit: seq<nat>) returns (r: Option<nat>)
      requires Valid() && Settled(customers, facilities, visit)
      modifies this, heap
      ensures Valid() && customers == old(customers) && |facilities| == |old(facilities)|
      ensures r.None? ==> heap.nodes == map[] && facilities == old(facilities)
      ensures r.Some? ==> r.value < |facilities| && facilities == old(facilities)[r.value := old(facilities[r.value]).(heapNode := None)]
      ensures forall g, k | 0 <= g < |facilities| && 0 <= k < |visit| && facilities[g].heapNode.None? && Some(g) != r ::
        visit[k] < |customers| && Relaxed(customers, facilities, g, visit[k])
    {
      ghost var fs0, nodes0 := facilities, heap.nodes;
      ghost var h: nat;
      r, h := heap.ExtractMin();
      if r.Some? {
        var f := r.value;
        ShapedExtract(customers, fs0, u, nodes0, heap.nodes, h);
        facilities := facilities[f := facilities[f].(heapNode := None)];
        forall g | 0 <= g < |facilities| ensures TreeOk(customers, facilities, g) {
          assert TreeOk(customers, fs0, g);
        }
        forall g, k | 0 <= g < |facilities| && 0 <= k < |visit| && facilities[g].heapNode.None? && g != f
          ensures Relaxed(customers, facilities, g, visit[k])
        {
          RelaxedStays(customers, fs0, customers, facilities, g, visit[k]);
        }
      }
    }

    /**
     * The potential update of Solver::ssp_algorithm: each facility's
     * potential grows by its distance, which is then reset to 0.
     */
    method UpdatePotentials()
      requires Valid() && forall g | 0 <= g < |facilities| :: facilities[g].heapNode.None?
      modifies this
      ensures Valid() && customers == old(customers) && |facilities| == |old(facilities)|
      ensures forall g | 0 <= g < |facilities| ::
        facilities[g] == old(facilities[g]).(pi := Add(old(facilities[g].pi), old(facilities[g].dijDist)),
                                             dijDist := Finite(0.0))
    {
      var g := 0;
      while g < |facilities|
        invariant g <= |facilities| == |old(facilities)| && customers == old(customers)
        invariant forall k | 0 <= k < |facilities| ::
          facilities[k] == (if k < g then old(facilities[k]).(pi := Add(old(facilities[k].pi), old(facilities[k].dijDist)),
                                                              dijDist := Finite(0.0))
                            else old(facilities[k]))
      {
        facilities := facilities[g := facilities[g].(pi := Add(facilities[g].pi, facilities[g].dijDist))];
        facilities := facilities[g := facilities[g].(dijDist := Finite(0.0))];
        g := g + 1;
      }
      forall k | 0 <= k < |facilities| ensures TreeOk(customers, facilities, k) {
        assert TreeOk(customers, old(facilities), k);
      }
    }

    /**
     * Solver::ssp_algorithm: every customer starts unsupplied; after the
     * first search, each round runs Dijkstra, moves the potentials,
     * supplies what the shortest-path tree allows, and requeues the
     * facilities still reachable, until nobody is unsupplied. The source
     * loops until then; here at most `fuel` rounds (and searches of at most
     * `fuel` extractions) are run, and a missing tree link is reported.
     *
     * When it finishes, every customer is assigned, no facility serves more
     * than u customers, and the outflows add up to the number of customers.
     */
    method SspAlgorithm(fuel: nat) returns (r: SspResult)
      requires heap.Valid() && Shape() && Counted(customers, facilities)
      requires forall x | 0 <= x < |customers| :: customers[x].flowParent.None?
      modifies this, heap
      ensures Valid() && |customers| == |old(customers)| && |facilities| == |old(facilities)|
      ensures r == Finished ==>
        && (forall x | 0 <= x < |customers| :: customers[x].flowParent.Some?)
        && (forall g | 0 <= g < |facilities| :: facilities[g].outflow <= u)
        && Outflow(facilities, |facilities|) == |customers|
    {
      var unsupplied := AllCustomers();
      DijInit();
      var rounds := fuel;
      while unsupplied != []
        invariant Valid() && |customers| == |old(customers)| && |facilities| == |old(facilities)|
        invariant forall g | 0 <= g < |facilities| :: facilities[g].heapNode.None? ==> facilities[g].dijDist == PlusInf
        invariant FibHeap.NoDup(unsupplied)
        invariant forall y: nat :: y in unsupplied <==> y < |customers| && customers[y].flowParent.None?
        decreases rounds
      {
        if rounds == 0 {
          return OutOfFuel;
        }
        var stop;
        unsupplied, stop := Round(unsupplied, fuel);
        if stop.Some? {
          return stop.value;
        }
        rounds := rounds - 1;
      }
      AllAssigned(customers);
      TotalFlow(customers, facilities);
      return Finished;
    }

    /** The first loop of Solver::ssp_algorithm: every customer starts unsupplied. */
    method AllCustomers() returns (ids: seq<nat>)
      ensures FibHeap.NoDup(ids)
      ensures forall y: nat :: y in ids <==> y < |customers|
    {
      ids := [];
      var x := 0;
      while x < |customers|
        invariant x <= |customers| && |ids| == x
        invariant forall k | 0 <= k < x :: ids[k] == k
      {
        ids := ids + [x];
        x := x + 1;
      }
      forall y: nat | y < |customers| ensures y in ids {
        assert ids[y] == y;
      }
    }

    /**
     * One round of the main loop of Solver::ssp_algorithm: a shortest-path
     * search, the potential update, one augmentation per unsupplied customer
     * and the re-initialisation of the search for the customers left. It
     * stops early when the search runs out of fuel or `supply` crashes.
     */
    method Round(unsupplied: seq<nat>, fuel: nat) returns (rest: seq<nat>, stop: Option<SspResult>)
      requires Valid()
      requires forall g | 0 <= g < |facilities| :: facilities[g].heapNode.None? ==> facilities[g].dijDist == PlusInf
      requires FibHeap.NoDup(unsupplied)
      requires forall y: nat :: y in unsupplied <==> y < |customers| && customers[y].flowParent.None?
      modifies this, heap
      ensures Valid() && |customers| == |old(customers)| && |facilities| == |old(facilities)|
      ensures stop.Some? ==> stop.value != Finished
      ensures stop.None? ==>
        && (forall g | 0 <= g < |facilities| :: facilities[g].heapNode.None? ==> facilities[g].dijDist == PlusInf)
        && FibHeap.NoDup(rest)
        && (forall y: nat :: y in rest <==> y < |customers| && customers[y].flowParent.None?)
    {
      rest := unsupplied;
      var done := DijAlgorithm(fuel);
      if !done {
        return rest, Some(OutOfFuel);
      }
      UpdatePotentials();
      var crashed;
      rest, crashed := IncreaseFlow(unsupplied);
      if crashed {
        return rest, Some(Crashed);
      }
      forall y | y in rest ensures y in unsupplied {
        assert y in multiset(rest);
      }
      DijReinit(rest);
      stop := None;
    }

    /**
     * The reset at the start of Solver::optimize_x: nobody is assigned, no
     * facility has outflow, all potentials are 0.
     */
    method ResetFlow()
      requires Valid()
      modifies this
      ensures heap.Valid() && Shape() && Counted(customers, facilities)
      ensures |customers| == |old(customers)| && forall x | 0 <= x < |customers| ::
        customers[x] == old(customers[x]).(flowParent := None)
      ensures |facilities| == |old(facilities)| && forall g | 0 <= g < |facilities| ::
        facilities[g] == old(facilities[g]).(outflow := 0, pi := Finite(0.0))
    {
      var x := 0;
      while x < |customers|
        invariant x <= |customers| == |old(customers)| && facilities == old(facilities)
        invariant forall y | 0 <= y < |customers| ::
          customers[y] == (if y < x then old(customers[y]).(flowParent := None) else old(customers[y]))
      {
        customers := customers[x := customers[x].(flowParent := None)];
        x := x + 1;
      }
      ghost var cs1 := customers;
      var g := 0;
      while g < |facilities|
        invariant g <= |facilities| == |old(facilities)| && customers == cs1
        invariant forall k | 0 <= k < |facilities| ::
          facilities[k] == (if k < g then old(facilities[k]).(outflow := 0, pi := Finite(0.0)) else old(facilities[k]))
      {
        facilities := facilities[g := facilities[g].(outflow := 0, pi := Finite(0.0))];
        g := g + 1;
      }
      forall k | 0 <= k < |facilities| ensures CountAt(customers, k) == facilities[k].outflow {
        CountNone(customers, k);
      }
      forall k | 0 <= k < |facilities| ensures NodeLinked(facilities, heap.nodes, k) {
        assert NodeLinked(old(facilities), heap.nodes, k);
      }
    }

    /**
     * Solver::optimize_x: forget the current assignment and compute a new
     * one from scratch for the current facility positions.
     */
    method OptimizeX(fuel: nat) returns (r: SspResult)
      requires Valid()
      modifies this, heap
      ensures Valid() && |customers| == |old(customers)| && |facilities| == |old(facilities)|
      ensures r == Finished ==>
        && (forall x | 0 <= x < |customers| :: customers[x].flowParent.Some?)
        && (forall g | 0 <= g < |facilities| :: facilities[g].outflow <= u)
        && Outflow(facilities, |facilities|) == |customers|
    {
      ResetFlow();
      r := SspAlgorithm(fuel);
    }

    /**
     * The heap update of Solver::dij_algorithm for a facility g whose
     * distance drops to d: a queued facility has its node moved up
     * (`decrease`), any other one is queued (`add`).
     */
    method Requeue(g: nat, d: Num)
      requires Valid() && g < |facilities| && Less(d, facilities[g].dijDist)
      modifies this, heap
      ensures Valid()
      ensures customers == old(customers) && |facilities| == |old(facilities)|
      ensures facilities == old(facilities)[g := old(facilities[g]).(dijDist := d, heapNode := facilities[g].heapNode)]
      ensures facilities[g].heapNode.Some?
      ensures old(facilities[g].heapNode).Some? ==> facilities[g].heapNode == old(facilities[g].heapNode)
    {
      ghost var fs0, nodes0 := facilities, heap.nodes;
      LessAsymmetric(d, facilities[g].dijDist);
      assert NodeLinked(fs0, nodes0, g);
      facilities := facilities[g := facilities[g].(dijDist := d)];
      if facilities[g].heapNode.Some? {
        heap.Decrease(facilities[g].heapNode.value, d);
        ShapedDecrease(customers, fs0, u, nodes0, heap.nodes, g, facilities[g], facilities[g].heapNode.value);
      } else {
        var h := heap.Add(g, d);
        facilities := facilities[g := facilities[g].(heapNode := Some(h))];
        ShapedAdd(customers, fs0, u, nodes0, heap.nodes, g, facilities[g], h);
      }
      assert facilities == fs0[g := facilities[g]];
      forall k | 0 <= k < |facilities| ensures TreeOk(customers, facilities, k) {
        assert TreeOk(customers, fs0, k);
      }
    }

    /**
     * The shortcut case of the relaxation: customer c, assigned to f2, offers
     * f2 the smaller cost d through f; c and f2 record the new tree links and
     * f2 is queued or moved up in the heap.
     */
    method Shortcut(f: nat, c: nat, f2: nat, d: Num)
      requires Valid() && f < |facilities| && c < |customers| && f2 < |facilities| && f2 != f
      requires customers[c].flowParent == Some(f2) && Less(d, facilities[f2].dijDist)
      modifies this, heap
      ensures Valid()
      ensures customers == old(customers)[c := old(customers[c]).(dijParent := Some(f))]
      ensures |facilities| == |old(facilities)|
      ensures facilities == old(facilities)[f2 := old(facilities[f2]).(dijDist := d, dijParent := Some(c),
                                                                        heapNode := facilities[f2].heapNode)]
      ensures facilities[f2].heapNode.Some?
      ensures old(facilities[f2].heapNode).Some? ==> facilities[f2].heapNode == old(facilities[f2].heapNode)
    {
      ghost var cs0, fs0 := customers, facilities;
      facilities := facilities[f2 := facilities[f2].(dijParent := Some(c))];
      customers := customers[c := customers[c].(dijParent := Some(f))];
      forall g | 0 <= g < |facilities| ensures TreeOk(customers, facilities, g) {
        assert TreeOk(cs0, fs0, g);
      }
      assert Shape() by {
        forall g | 0 <= g < |facilities| ensures NodeLinked(facilities, heap.nodes, g) {
          assert NodeLinked(fs0, heap.nodes, g);
        }
      }
      CountSameAll(cs0, customers);
      Requeue(f2, d);
    }

    /**
     * One step of the inner loop of Solver::dij_algorithm: relax the edge
     * from the extracted facility f through customer c. A customer assigned
     * to f is skipped; an unassigned customer takes the cost through f if it
     * is smaller; an assigned customer is a shortcut to its facility f2,
     * which takes the shortcut cost if smaller and is queued or moved up in
     * the heap.
     */
    method RelaxCustomer(f: nat, c: nat)
      requires Valid() && f < |facilities| && c < |customers|
      modifies this, heap
      ensures Valid()
      ensures |customers| == |old(customers)| && |facilities| == |old(facilities)|
      ensures Relaxed(customers, facilities, f, c)
      ensures customers == RelaxCustomers(old(customers), old(facilities), f, c)
      ensures |facilities| == |old(facilities)| && forall g | 0 <= g < |facilities| ::
        facilities[g] == RelaxFacilities(old(customers), old(facilities), f, c)[g].(heapNode := facilities[g].heapNode)
      ensures forall g | 0 <= g < |facilities| ::
        && (old(facilities[g].heapNode).Some? ==> facilities[g].heapNode == old(facilities[g].heapNode))
        && (facilities[g].dijDist != old(facilities[g].dijDist) ==> facilities[g].heapNode.Some?)
      ensures facilities[f] == old(facilities[f])
    {
      ghost var cs0, fs0 := customers, facilities;
      RelaxEffect(cs0, fs0, f, c);
      if customers[c].flowParent == Some(f) {
        return;
      }
      var dist := DirectCost(facilities[f], customers[c]);
      if customers[c].flowParent.Some? {
        var f2 := customers[c].flowParent.value;
        dist := Sub(Sub(dist, Finite(Dist(customers[c].pos, facilities[f2].pos))), facilities[f2].pi);
        if Less(dist, facilities[f2].dijDist) {
          Shortcut(f, c, f2, dist);
          assert facilities[f2] == RelaxFacilities(cs0, fs0, f, c)[f2].(heapNode := facilities[f2].heapNode);
        }
      } else if Less(dist, customers[c].dijDist) {
        customers := customers[c := customers[c].(dijDist := dist, dijParent := Some(f))];
      }
      CountSameAll(cs0, customers);
    }
  }

  /**
   * What one call of `supply` on customer c does, from (cs, fs) to (cs', fs'):
   * without a tree link at c it fails (the source dereferences a null
   * pointer); with spare capacity at c's tree facility it assigns c there;
   * on success exactly one facility, `last`, which had spare capacity, gains
   * one customer, c is assigned to its old tree facility, and the counts move
   * accordingly; on failure no assignment changes. Customers other than c
   * stay assigned or unassigned, and those without a tree link are untouched.
   */
  ghost predicate SupplyPost(cs: seq<Customer>, fs: seq<Facility>, cs': seq<Customer>, fs': seq<Facility>,
                             u: nat, c: nat, r: Supply, last: nat)
    requires InRange(cs, fs) && c < |cs|
  {
    && SupplyFrame(cs, fs, cs', fs')
    && InRange(cs', fs')
    && cs'[c].dijParent.None?
    && (cs[c].dijParent.None? ==> r == MissingParent && cs' == cs && fs' == fs)
    && (cs[c].dijParent.Some? && fs[cs[c].dijParent.value].outflow < u ==>
          var f := cs[c].dijParent.value;
          && r == Supplied && last == f
          && cs' == cs[c := cs[c].(dijParent := None, flowParent := Some(f))]
          && fs' == fs[f := fs[f].(outflow := fs[f].outflow + 1)])
    && (r != Supplied ==>
          && Trees(cs', fs')
          && (forall x | 0 <= x < |cs| :: cs'[x].flowParent == cs[x].flowParent)
          && (forall g | 0 <= g < |fs| :: fs'[g].outflow == fs[g].outflow))
    && (r == Supplied ==>
          && cs'[c].flowParent == cs[c].dijParent
          && last < |fs| && fs[last].outflow < u
          && (forall g | 0 <= g < |fs| :: fs'[g].outflow == fs[g].outflow + Indicator(g == last))
          && (forall g | 0 <= g < |fs| ::
                CountAt(cs', g) + Indicator(Some(g) == cs[c].flowParent) == CountAt(cs, g) + Indicator(g == last))
          && (forall g | 0 <= g < |fs| && Some(g) != cs[c].flowParent :: TreeOk(cs', fs', g)))
    && (forall x | 0 <= x < |cs| && x != c :: cs'[x].flowParent.Some? <==> cs[x].flowParent.Some?)
    && (forall x | 0 <= x < |cs| && cs[x].dijParent.None? :: cs'[x].flowParent == cs[x].flowParent)
  }

  lemma SupplyMissing(cs: seq<Customer>, fs: seq<Facility>, u: nat, c: nat)
    requires InRange(cs, fs) && Trees(cs, fs) && c < |cs| && cs[c].dijParent.None?
    ensures SupplyPost(cs, fs, cs, fs, u, c, MissingParent, 0)
  {
  }

  lemma SupplyBase(cs: seq<Customer>, fs: seq<Facility>, u: nat, c: nat)
    requires InRange(cs, fs) && Trees(cs, fs) && c < |cs| && cs[c].dijParent.Some?
    requires fs[cs[c].dijParent.value].outflow < u
    ensures var f := cs[c].dijParent.value;
      SupplyPost(cs, fs, cs[c := cs[c].(dijParent := None, flowParent := Some(f))],
                 fs[f := fs[f].(outflow := fs[f].outflow + 1)], u, c, Supplied, f)
  {
    var f := cs[c].dijParent.value;
    var cs', fs' := cs[c := cs[c].(dijParent := None, flowParent := Some(f))], fs[f := fs[f].(outflow := fs[f].outflow + 1)];
    AssignCounts(cs, c, f);
    assert SupplyFrame(cs, fs, cs', fs');
    assert InRange(cs', fs');
    assert forall g | 0 <= g < |fs| :: fs'[g].outflow == fs[g].outflow + Indicator(g == f);
    forall g | 0 <= g < |fs| && Some(g) != cs[c].flowParent ensures TreeOk(cs', fs', g) {
      assert TreeOk(cs, fs, g);
    }
  }

  /** Assigning customer c to f (and clearing its tree link) moves one count to f. */
  lemma AssignCounts(cs: seq<Customer>, c: nat, f: nat)
    requires c < |cs|
    ensures forall g: nat :: CountAt(cs[c := cs[c].(dijParent := None, flowParent := Some(f))], g)
                             + Indicator(Some(g) == cs[c].flowParent) == CountAt(cs, g) + Indicator(g == f)
  {
    var cs1 := cs[c := cs[c].(dijParent := None)];
    CountSameAll(cs, cs1);
    CountReassignAll(cs1, c, Some(f));
    assert cs1[c := cs1[c].(flowParent := Some(f))] == cs[c := cs[c].(dijParent := None, flowParent := Some(f))];
  }

  lemma SupplyDeadEnd(cs: seq<Customer>, fs: seq<Facility>, u: nat, c: nat)
    requires InRange(cs, fs) && Trees(cs, fs) && c < |cs| && cs[c].dijParent.Some?
    requires fs[cs[c].dijParent.value].outflow >= u && fs[cs[c].dijParent.value].dijParent.None?
    ensures var f := cs[c].dijParent.value;
      SupplyPost(cs, fs, cs[c := cs[c].(dijParent := None)], fs[f := fs[f].(dijParent := None)], u, c, NotSupplied, 0)
  {
    var f := cs[c].dijParent.value;
    var cs', fs' := cs[c := cs[c].(dijParent := None)], fs[f := fs[f].(dijParent := None)];
    assert fs' == fs;
    forall g | 0 <= g < |fs| ensures TreeOk(cs', fs', g) {
      assert TreeOk(cs, fs, g);
    }
  }

  /** Clearing a customer's tree link keeps the tree consistent with the flow. */
  lemma UnlinkKeepsTrees(cs: seq<Customer>, fs: seq<Facility>, c: nat)
    requires InRange(cs, fs) && Trees(cs, fs) && c < |cs|
    ensures var cs' := cs[c := cs[c].(dijParent := None)];
      InRange(cs', fs) && Trees(cs', fs) && Parented(cs') == Parented(cs) - {c}
  {
    var cs' := cs[c := cs[c].(dijParent := None)];
    forall g | 0 <= g < |fs| ensures TreeOk(cs', fs, g) {
      assert TreeOk(cs, fs, g);
    }
  }

  /**
   * The recursive case that succeeds: f's tree customer c2 was supplied
   * elsewhere (from state (cs1, fs) to (cs2, fs2)), so c takes its place at f.
   */
  ghost predicate HandOverPre(cs: seq<Customer>, fs: seq<Facility>, u: nat, c: nat,
                              cs2: seq<Customer>, fs2: seq<Facility>, last: nat)
  {
    && InRange(cs, fs) && Trees(cs, fs) && c < |cs| && cs[c].dijParent.Some?
    && fs[cs[c].dijParent.value].outflow >= u && fs[cs[c].dijParent.value].dijParent.Some?
    && var cs1 := cs[c := cs[c].(dijParent := None)];
      InRange(cs1, fs) &&
      SupplyPost(cs1, fs, cs2, fs2, u, fs[cs[c].dijParent.value].dijParent.value, Supplied, last)
  }

  lemma SupplyHandOver(cs: seq<Customer>, fs: seq<Facility>, u: nat, c: nat,
                       cs2: seq<Customer>, fs2: seq<Facility>, last: nat)
    requires HandOverPre(cs, fs, u, c, cs2, fs2, last)
    ensures var f := cs[c].dijParent.value;
      SupplyPost(cs, fs, cs2[c := cs2[c].(flowParent := Some(f))], fs2[f := fs2[f].(dijParent := None)],
                 u, c, Supplied, last)
  {
    var f := cs[c].dijParent.value;
    var c2 := fs[f].dijParent.value;
    var cs1 := cs[c := cs[c].(dijParent := None)];
    assert TreeOk(cs, fs, f);
    assert cs1[c2].flowParent == Some(f);
    HandOverFrame(cs, fs, cs2, fs2, c, f);
    HandOverCounts(cs, fs, u, c, cs2, fs2, last);
    HandOverStatus(cs, fs, u, c, cs2, fs2, last);
    HandOverTrees(cs, fs, cs2, fs2, c, f, c2);
  }

  /** The hand-over moves one unit of flow into `last` and keeps the counts in step. */
  lemma HandOverCounts(cs: seq<Customer>, fs: seq<Facility>, u: nat, c: nat,
                       cs2: seq<Customer>, fs2: seq<Facility>, last: nat)
    requires HandOverPre(cs, fs, u, c, cs2, fs2, last)
    ensures |cs2| == |cs| && |fs2| == |fs| && InRange(cs2, fs2)
    ensures last < |fs| && fs[last].outflow < u
    ensures forall g | 0 <= g < |fs| ::
      fs2[cs[c].dijParent.value := fs2[cs[c].dijParent.value].(dijParent := None)][g].outflow
      == fs[g].outflow + Indicator(g == last)
    ensures forall g | 0 <= g < |fs| ::
      CountAt(cs2[c := cs2[c].(flowParent := cs[c].dijParent)], g) + Indicator(Some(g) == cs[c].flowParent)
      == CountAt(cs, g) + Indicator(g == last)
  {
    var f := cs[c].dijParent.value;
    var c2 := fs[f].dijParent.value;
    var cs1 := cs[c := cs[c].(dijParent := None)];
    assert TreeOk(cs, fs, f);
    assert cs1[c2].flowParent == Some(f);
    assert cs2[c].flowParent == cs[c].flowParent;
    CountSameAll(cs, cs1);
    CountReassignAll(cs2, c, Some(f));
  }

  /** c ends assigned to f with no tree link; everybody else keeps their status. */
  lemma HandOverStatus(cs: seq<Customer>, fs: seq<Facility>, u: nat, c: nat,
                       cs2: seq<Customer>, fs2: seq<Facility>, last: nat)
    requires HandOverPre(cs, fs, u, c, cs2, fs2, last)
    ensures var f := cs[c].dijParent.value;
      var cs' := cs2[c := cs2[c].(flowParent := Some(f))];
      && |cs2| == |cs|
      && cs'[c].dijParent.None? && cs'[c].flowParent == cs[c].dijParent
      && (forall x | 0 <= x < |cs| && x != c :: cs'[x].flowParent.Some? <==> cs[x].flowParent.Some?)
      && (forall x | 0 <= x < |cs| && cs[x].dijParent.None? :: cs'[x].flowParent == cs[x].flowParent)
  {
    var f := cs[c].dijParent.value;
    var c2 := fs[f].dijParent.value;
    var cs1 := cs[c := cs[c].(dijParent := None)];
    assert TreeOk(cs, fs, f);
    assert cs1[c2].flowParent == Some(f);
    assert cs2[c].flowParent == cs[c].flowParent && cs2[c].dijParent.None?;
  }

  /** The hand-over stays within what `supply` may change. */
  lemma HandOverFrame(cs: seq<Customer>, fs: seq<Facility>, cs2: seq<Customer>, fs2: seq<Facility>,
                      c: nat, f: nat)
    requires c < |cs| && f < |fs| && SupplyFrame(cs[c := cs[c].(dijParent := None)], fs, cs2, fs2)
    ensures SupplyFrame(cs, fs, cs2[c := cs2[c].(flowParent := Some(f))], fs2[f := fs2[f].(dijParent := None)])
  {
    var cs1 := cs[c := cs[c].(dijParent := None)];
    var cs', fs' := cs2[c := cs2[c].(flowParent := Some(f))], fs2[f := fs2[f].(dijParent := None)];
    forall x | 0 <= x < |cs|
      ensures cs'[x] == cs[x].(dijParent := cs'[x].dijParent, flowParent := cs'[x].flowParent)
      ensures cs'[x].dijParent == cs[x].dijParent || cs'[x].dijParent.None?
    {
      assert cs2[x] == cs1[x].(dijParent := cs2[x].dijParent, flowParent := cs2[x].flowParent);
    }
    forall g | 0 <= g < |fs|
      ensures fs'[g] == fs[g].(dijParent := fs'[g].dijParent, outflow := fs'[g].outflow)
      ensures fs'[g].dijParent == fs[g].dijParent || fs'[g].dijParent.None?
    {
      assert fs2[g] == fs[g].(dijParent := fs2[g].dijParent, outflow := fs2[g].outflow);
    }
  }

  /** After the hand-over, every tree link except the one c leaves stays consistent. */
  lemma HandOverTrees(cs: seq<Customer>, fs: seq<Facility>, cs2: seq<Customer>, fs2: seq<Facility>,
                      c: nat, f: nat, c2: nat)
    requires InRange(cs, fs) && Trees(cs, fs) && c < |cs| && f < |fs| && c2 < |cs|
    requires |cs2| == |cs| && |fs2| == |fs| && InRange(cs2, fs2)
    requires forall g | 0 <= g < |fs| :: fs2[g].dijParent == fs[g].dijParent || fs2[g].dijParent.None?
    requires forall g | 0 <= g < |fs| && Some(g) != Some(f) :: TreeOk(cs2, fs2, g)
    ensures var cs', fs' := cs2[c := cs2[c].(flowParent := Some(f))], fs2[f := fs2[f].(dijParent := None)];
      InRange(cs', fs') &&
      forall g | 0 <= g < |fs| && Some(g) != cs[c].flowParent :: TreeOk(cs', fs', g)
  {
    var cs', fs' := cs2[c := cs2[c].(flowParent := Some(f))], fs2[f := fs2[f].(dijParent := None)];
    forall g | 0 <= g < |fs| && Some(g) != cs[c].flowParent
      ensures TreeOk(cs', fs', g)
    {
      assert fs[g].dijParent != Some(c) by {
        assert TreeOk(cs, fs, g);
      }
      if g != f && fs2[g].dijParent.Some? {
        assert TreeOk(cs2, fs2, g);
      }
    }
  }

  /** The recursive case that fails: nothing is assigned, f loses its tree link. */
  lemma SupplyFailed(cs: seq<Customer>, fs: seq<Facility>, u: nat, c: nat,
                     cs2: seq<Customer>, fs2: seq<Facility>, r2: Supply, last: nat)
    requires InRange(cs, fs) && Trees(cs, fs) && c < |cs| && cs[c].dijParent.Some?
    requires fs[cs[c].dijParent.value].outflow >= u && fs[cs[c].dijParent.value].dijParent.Some?
    requires r2 != Supplied
    requires var cs1 := cs[c := cs[c].(dijParent := None)];
      InRange(cs1, fs) &&
      SupplyPost(cs1, fs, cs2, fs2, u, fs[cs[c].dijParent.value].dijParent.value, r2, last)
    ensures var f := cs[c].dijParent.value;
      SupplyPost(cs, fs, cs2, if r2 == NotSupplied then fs2[f := fs2[f].(dijParent := None)] else fs2,
                 u, c, r2, 0)
  {
    var f := cs[c].dijParent.value;
    var fs' := if r2 == NotSupplied then fs2[f := fs2[f].(dijParent := None)] else fs2;
    forall g | 0 <= g < |fs| ensures TreeOk(cs2, fs', g) {
      assert TreeOk(cs2, fs2, g);
    }
  }

  /** `supply` keeps the solver's shape: capacities are respected and the heap is not touched. */
  lemma SupplyShaped(cs: seq<Customer>, fs: seq<Facility>, cs': seq<Customer>, fs': seq<Facility>,
                     u: nat, nodes: FibHeap.Arena, c: nat, r: Supply, last: nat)
    requires Shaped(cs, fs, u, nodes) && c < |cs| && SupplyPost(cs, fs, cs', fs', u, c, r, last)
    ensures Shaped(cs', fs', u, nodes)
  {
    forall g | 0 <= g < |fs'| ensures NodeLinked(fs', nodes, g) {
      assert NodeLinked(fs, nodes, g);
    }
  }

  /**
   * Distances, potentials and queue positions do not enter the tree links or
   * the spare capacities that has_path reads.
   */
  lemma SameLinks(cs: seq<Customer>, fs: seq<Facility>, cs': seq<Customer>, fs': seq<Facility>, u: nat)
    requires InRange(cs, fs) && |cs| == |cs'| && |fs| == |fs'|
    requires forall x | 0 <= x < |cs| :: cs'[x].dijParent == cs[x].dijParent && cs'[x].flowParent == cs[x].flowParent
    requires forall g | 0 <= g < |fs| :: fs'[g].dijParent == fs[g].dijParent && fs'[g].outflow == fs[g].outflow
    ensures InRange(cs', fs') && Links(cs', fs') == Links(cs, fs) && Open(fs', u) == Open(fs, u)
  {
  }

  /**
   * The new customers after relaxing the edge from facility f through
   * customer c: an unassigned customer takes a smaller direct cost with f as
   * its tree parent; an assigned one gets f as its tree parent when the
   * shortcut improves its facility.
   */
  function RelaxCustomers(cs: seq<Customer>, fs: seq<Facility>, f: nat, c: nat): seq<Customer>
    requires InRange(cs, fs) && f < |fs| && c < |cs|
  {
    match cs[c].flowParent
    case None =>
      var d := DirectCost(fs[f], cs[c]);
      if Less(d, cs[c].dijDist) then cs[c := cs[c].(dijDist := d, dijParent := Some(f))] else cs
    case Some(f2) =>
      if f2 != f && Less(ShortcutCost(fs[f], cs[c], fs[f2]), fs[f2].dijDist)
      then cs[c := cs[c].(dijParent := Some(f))] else cs
  }

  /**
   * The new facilities after the same relaxation: the facility of an
   * assigned customer takes the smaller shortcut cost, with c as its tree
   * parent. Queue positions are the heap's business and not part of this.
   */
  function RelaxFacilities(cs: seq<Customer>, fs: seq<Facility>, f: nat, c: nat): seq<Facility>
    requires InRange(cs, fs) && f < |fs| && c < |cs|
  {
    match cs[c].flowParent
    case None => fs
    case Some(f2) =>
      var d := ShortcutCost(fs[f], cs[c], fs[f2]);
      if f2 != f && Less(d, fs[f2].dijDist) then fs[f2 := fs[f2].(dijDist := d, dijParent := Some(c))] else fs
  }

  /**
   * Relaxing an edge makes it relaxed, lowers distances only, keeps the
   * tree consistent with the flow and changes nothing when the edge was
   * already relaxed; the source f is never touched.
   */
  lemma RelaxEffect(cs: seq<Customer>, fs: seq<Facility>, f: nat, c: nat)
    requires InRange(cs, fs) && Trees(cs, fs) && f < |fs| && c < |cs|
    ensures var cs', fs' := RelaxCustomers(cs, fs, f, c), RelaxFacilities(cs, fs, f, c);
      && |cs'| == |cs| && |fs'| == |fs| && InRange(cs', fs') && Trees(cs', fs')
      && Relaxed(cs', fs', f, c)
      && fs'[f] == fs[f]
      && (forall x | 0 <= x < |cs| ::
            cs'[x] == cs[x].(dijDist := cs'[x].dijDist, dijParent := cs'[x].dijParent) &&
            NotRaised(cs[x].dijDist, cs'[x].dijDist))
      && (forall g | 0 <= g < |fs| ::
            fs'[g] == fs[g].(dijDist := fs'[g].dijDist, dijParent := fs'[g].dijParent) &&
            NotRaised(fs[g].dijDist, fs'[g].dijDist))
      && (Relaxed(cs, fs, f, c) ==> cs' == cs && fs' == fs)
  {
    var cs', fs' := RelaxCustomers(cs, fs, f, c), RelaxFacilities(cs, fs, f, c);
    match cs[c].flowParent
    case None =>
      LessIrreflexive(DirectCost(fs[f], cs[c]));
      forall g | 0 <= g < |fs'| ensures TreeOk(cs', fs', g) {
        assert TreeOk(cs, fs, g);
      }
    case Some(f2) =>
      var d := ShortcutCost(fs[f], cs[c], fs[f2]);
      LessIrreflexive(d);
      if f2 != f && Less(d, fs[f2].dijDist) {
        assert ShortcutCost(fs'[f], cs'[c], fs'[f2]) == d;
        forall g | 0 <= g < |fs'| ensures TreeOk(cs', fs', g) {
          assert TreeOk(cs, fs, g);
        }
      }
  }

  /** A customer the search cannot skip: unassigned, or assigned to a facility not at distance 0. */
  ghost predicate NotIgnored(cs: seq<Customer>, fs: seq<Facility>, c: nat)
    requires InRange(cs, fs) && c < |cs|
  {
    cs[c].flowParent.None? || !IsZero(fs[cs[c].flowParent.value].dijDist)
  }

  /**
   * Replacing facility g by a record that respects the shape, while the heap
   * only gains nodes and changes only the keys of nodes holding g, keeps the
   * shape.
   */
  lemma ShapedUpdate(cs: seq<Customer>, fs: seq<Facility>, u: nat, nodes: FibHeap.Arena, nodes': FibHeap.Arena,
                     g: nat, f: Facility)
    requires Shaped(cs, fs, u, nodes) && g < |fs|
    requires f.outflow <= u && (f.dijParent.Some? ==> f.dijParent.value < |cs|)
    requires nodes.Keys <= nodes'.Keys
    requires forall id | id in nodes ::
      nodes'[id].content == nodes[id].content && (nodes'[id].key == nodes[id].key || nodes[id].content == g)
    requires forall id | id in nodes' :: nodes'[id].content < |fs|
    requires f.heapNode.Some? ==>
      f.heapNode.value in nodes' && nodes'[f.heapNode.value].content == g && nodes'[f.heapNode.value].key == f.dijDist
    ensures Shaped(cs, fs[g := f], u, nodes')
  {
    var fs' := fs[g := f];
    forall k | 0 <= k < |fs'| ensures NodeLinked(fs', nodes', k) {
      assert NodeLinked(fs, nodes, k);
    }
  }

  /** Queueing facility g under a fresh node h keeps the shape. */
  lemma ShapedAdd(cs: seq<Customer>, fs: seq<Facility>, u: nat, nodes: FibHeap.Arena, nodes': FibHeap.Arena,
                  g: nat, f: Facility, h: nat)
    requires Shaped(cs, fs, u, nodes) && g < |fs| && fs[g].heapNode.None?
    requires f.outflow <= u && (f.dijParent.Some? ==> f.dijParent.value < |cs|)
    requires f.heapNode == Some(h) && h !in nodes && nodes'.Keys == nodes.Keys + {h}
    requires nodes'[h].content == g && nodes'[h].key == f.dijDist
    requires forall id | id in nodes :: nodes'[id].content == nodes[id].content && nodes'[id].key == nodes[id].key
    ensures Shaped(cs, fs[g := f], u, nodes')
  {
    ShapedUpdate(cs, fs, u, nodes, nodes', g, f);
  }

  /** Moving facility g's node h to the key f.dijDist keeps the shape. */
  lemma ShapedDecrease(cs: seq<Customer>, fs: seq<Facility>, u: nat, nodes: FibHeap.Arena, nodes': FibHeap.Arena,
                       g: nat, f: Facility, h: nat)
    requires Shaped(cs, fs, u, nodes) && g < |fs| && fs[g].heapNode == Some(h) && h in nodes
    requires f.outflow <= u && (f.dijParent.Some? ==> f.dijParent.value < |cs|) && f.heapNode == Some(h)
    requires FibHeap.SameEntries(nodes[h := nodes[h].(key := f.dijDist)], nodes')
    ensures Shaped(cs, fs[g := f], u, nodes')
  {
    assert NodeLinked(fs, nodes, g);
    ShapedUpdate(cs, fs, u, nodes, nodes', g, f);
  }

  /** Taking node h out of the heap and its facility out of the queue keeps the shape. */
  lemma ShapedExtract(cs: seq<Customer>, fs: seq<Facility>, u: nat, nodes: FibHeap.Arena, nodes': FibHeap.Arena, h: nat)
    requires Shaped(cs, fs, u, nodes) && h in nodes && FibHeap.SameEntries(nodes - {h}, nodes')
    ensures var f := nodes[h].content;
      f < |fs| && Shaped(cs, fs[f := fs[f].(heapNode := None)], u, nodes')
  {
    var f := nodes[h].content;
    var fs' := fs[f := fs[f].(heapNode := None)];
    forall g | 0 <= g < |fs'| ensures NodeLinked(fs', nodes', g) {
      assert NodeLinked(fs, nodes, g);
    }
  }

  /**
   * Relaxing the edge from f through visit[j] keeps every relaxed edge out
   * of an unqueued facility relaxed, and adds that edge to them.
   */
  lemma RelaxKeepsRelaxed(cs: seq<Customer>, fs: seq<Facility>, cs': seq<Customer>, fs': seq<Facility>,
                          visit: seq<nat>, f: nat, j: nat)
    requires InRange(cs, fs) && InRange(cs', fs') && |cs'| == |cs| && |fs'| == |fs|
    requires f < |fs| && j < |visit| && forall k | 0 <= k < |visit| :: visit[k] < |cs|
    requires Relaxed(cs', fs', f, visit[j]) && fs'[f] == fs[f] && fs[f].heapNode.None?
    requires SearchFrame(cs, fs, cs', fs')
    requires forall g | 0 <= g < |fs| :: fs'[g].dijDist != fs[g].dijDist ==> fs'[g].heapNode.Some?
    requires forall g | 0 <= g < |fs| :: fs[g].heapNode.Some? ==> fs'[g].heapNode == fs[g].heapNode
    requires forall g, k | 0 <= g < |fs| && 0 <= k < |visit| && fs[g].heapNode.None? && (g != f || k < j) ::
      Relaxed(cs, fs, g, visit[k])
    ensures forall g, k | 0 <= g < |fs| && 0 <= k < |visit| && fs'[g].heapNode.None? && (g != f || k < j + 1) ::
      Relaxed(cs', fs', g, visit[k])
  {
    forall g, k | 0 <= g < |fs| && 0 <= k < |visit| && fs'[g].heapNode.None? && (g != f || k < j + 1)
      ensures Relaxed(cs', fs', g, visit[k])
    {
      if g != f || k < j {
        RelaxedStays(cs, fs, cs', fs', g, visit[k]);
      }
    }
  }

  /**
   * What the search may change: distances (only by lowering them), tree
   * links and queue positions. Positions, potentials and the flow stay.
   */
  ghost predicate SearchFrame(cs: seq<Customer>, fs: seq<Facility>, cs': seq<Customer>, fs': seq<Facility>)
  {
    && |cs'| == |cs| && |fs'| == |fs|
    && (forall x | 0 <= x < |cs| ::
          cs'[x] == cs[x].(dijDist := cs'[x].dijDist, dijParent := cs'[x].dijParent) &&
          NotRaised(cs[x].dijDist, cs'[x].dijDist))
    && (forall g | 0 <= g < |fs| ::
          fs'[g] == fs[g].(dijDist := fs'[g].dijDist, dijParent := fs'[g].dijParent, heapNode := fs'[g].heapNode) &&
          NotRaised(fs[g].dijDist, fs'[g].dijDist))
  }

  lemma SearchFrameTrans(cs: seq<Customer>, fs: seq<Facility>, cs1: seq<Customer>, fs1: seq<Facility>,
                         cs2: seq<Customer>, fs2: seq<Facility>)
    requires SearchFrame(cs, fs, cs1, fs1) && SearchFrame(cs1, fs1, cs2, fs2)
    ensures SearchFrame(cs, fs, cs2, fs2)
  {
    forall x | 0 <= x < |cs|
      ensures cs2[x] == cs[x].(dijDist := cs2[x].dijDist, dijParent := cs2[x].dijParent)
      ensures NotRaised(cs[x].dijDist, cs2[x].dijDist)
    {
      assert cs1[x] == cs[x].(dijDist := cs1[x].dijDist, dijParent := cs1[x].dijParent);
      if Less(cs2[x].dijDist, cs1[x].dijDist) && Less(cs1[x].dijDist, cs[x].dijDist) {
        LessTransitive(cs2[x].dijDist, cs1[x].dijDist, cs[x].dijDist);
      }
    }
    forall g | 0 <= g < |fs|
      ensures fs2[g] == fs[g].(dijDist := fs2[g].dijDist, dijParent := fs2[g].dijParent, heapNode := fs2[g].heapNode)
      ensures NotRaised(fs[g].dijDist, fs2[g].dijDist)
    {
      assert fs1[g] == fs[g].(dijDist := fs1[g].dijDist, dijParent := fs1[g].dijParent, heapNode := fs1[g].heapNode);
      if Less(fs2[g].dijDist, fs1[g].dijDist) && Less(fs1[g].dijDist, fs[g].dijDist) {
        LessTransitive(fs2[g].dijDist, fs1[g].dijDist, fs[g].dijDist);
      }
    }
  }

  /**
   * Every edge out of a facility that is not queued, through a customer of
   * `visit`, is relaxed. Once nothing is queued, this is the fixpoint the
   * search computes.
   */
  ghost predicate Settled(cs: seq<Customer>, fs: seq<Facility>, visit: seq<nat>)
    requires InRange(cs, fs)
  {
    forall g, k | 0 <= g < |fs| && 0 <= k < |visit| && fs[g].heapNode.None? ::
      visit[k] < |cs| && Relaxed(cs, fs, g, visit[k])
  }

  /** Supply frames compose. */
  lemma SupplyFrameTrans(cs: seq<Customer>, fs: seq<Facility>, cs1: seq<Customer>, fs1: seq<Facility>,
                         cs2: seq<Customer>, fs2: seq<Facility>)
    requires SupplyFrame(cs, fs, cs1, fs1) && SupplyFrame(cs1, fs1, cs2, fs2)
    ensures SupplyFrame(cs, fs, cs2, fs2)
  {
    forall x | 0 <= x < |cs|
      ensures cs2[x] == cs[x].(dijParent := cs2[x].dijParent, flowParent := cs2[x].flowParent)
    {
      assert cs1[x] == cs[x].(dijParent := cs1[x].dijParent, flowParent := cs1[x].flowParent);
    }
    forall g | 0 <= g < |fs|
      ensures fs2[g] == fs[g].(dijParent := fs2[g].dijParent, outflow := fs2[g].outflow)
    {
      assert fs1[g] == fs[g].(dijParent := fs1[g].dijParent, outflow := fs1[g].outflow);
    }
  }

  /**
   * Supplying an unassigned customer keeps the tree consistent with the flow
   * and the outflows counted, and assigns one more customer exactly when it
   * succeeds.
   */
  lemma SupplyKeepsValid(cs: seq<Customer>, fs: seq<Facility>, cs': seq<Customer>, fs': seq<Facility>,
                         u: nat, c: nat, r: Supply, last: nat)
    requires InRange(cs, fs) && Trees(cs, fs) && Counted(cs, fs) && c < |cs| && cs[c].flowParent.None?
    requires SupplyPost(cs, fs, cs', fs', u, c, r, last)
    ensures Trees(cs', fs') && Counted(cs', fs')
    ensures Assigned(cs') == Assigned(cs) + Indicator(r == Supplied)
  {
    if r == Supplied {
      AssignOne(cs, cs', c);
      forall g | 0 <= g < |fs'| ensures CountAt(cs', g) == fs'[g].outflow {
        assert CountAt(cs', g) + Indicator(Some(g) == cs[c].flowParent) == CountAt(cs, g) + Indicator(g == last);
      }
    } else {
      CountSameAll(cs, cs');
    }
  }

  /** Equal assignments give equal counts at every facility. */
  lemma CountSameAll(cs: seq<Customer>, cs': seq<Customer>)
    requires |cs| == |cs'| && forall x | 0 <= x < |cs| :: cs[x].flowParent == cs'[x].flowParent
    ensures forall g: nat :: CountAt(cs, g) == CountAt(cs', g)
    ensures Assigned(cs) == Assigned(cs')
  {
    forall g: nat {
      CountSameAssignment(cs, cs', g);
    }
    CountSameAssignment(cs, cs', 0);
  }

  /** CountReassign for every facility at once. */
  lemma CountReassignAll(cs: seq<Customer>, i: nat, v: Option<nat>)
    requires i < |cs|
    ensures forall g: nat :: CountAt(cs[i := cs[i].(flowParent := v)], g) + Indicator(cs[i].flowParent == Some(g))
                        == CountAt(cs, g) + Indicator(v == Some(g))
  {
    forall g {
      CountReassign(cs, i, v, g);
    }
  }
}
