/**
 * heap.hpp: the Fibonacci heap Dijkstra's pass draws facilities from, with a
 * side list `zeros` for contents whose key is already the least possible.
 *
 * Nodes live in an arena `nodes` addressed by id (`new Node` takes the next
 * unused id, `delete` removes the entry). A node's child list is kept as a
 * sequence: the source's `first` is its head, a child's `next`/`prev` are its
 * neighbours in it and `size` is its length. The source reads a node's key
 * through its content (`content->dij_dist`); here the node carries the key,
 * and `Decrease` is told the new key.
 *
 * The ghost map `height` ranks every node strictly below its parent; it
 * bounds the cascade of cuts and carries the proof that the minimum of the
 * roots is the minimum of the whole heap.
 */
module FibHeap {
  import opened Wrappers
  import opened Numbers

  datatype Node = Node(content: nat, key: Num, phi: bool, parent: Option<nat>, children: seq<nat>)

  type Arena = map<nat, Node>

  function Max(a: nat, b: nat): nat { if a < b then b else a }

  predicate NoDup(s: seq<nat>)
  {
    forall i, j | 0 <= i < j < |s| :: s[i] != s[j]
  }

  /** Unlinks x from a sibling list. */
  function Remove(s: seq<nat>, x: nat): (r: seq<nat>)
    ensures forall y :: y in r <==> y in s && y != x
  {
    if s == [] then []
    else if s[0] == x then Remove(s[1..], x)
    else [s[0]] + Remove(s[1..], x)
  }

  /** Unlinking a node from a list without repetitions removes exactly one entry. */
  lemma {:induction false} RemoveOnce(s: seq<nat>, x: nat)
    requires NoDup(s)
    ensures NoDup(Remove(s, x))
    ensures x in s ==> |Remove(s, x)| == |s| - 1
    ensures s != [] && s[0] == x ==> Remove(s, x) == s[1..]
  {
    if s != [] {
      var t := s[1..];
      assert NoDup(t) by {
        forall i, j | 0 <= i < j < |t|
          ensures t[i] != t[j]
        {
          assert t[i] == s[i + 1] && t[j] == s[j + 1];
        }
      }
      RemoveOnce(t, x);
      assert s[0] !in t by {
        forall i | 0 <= i < |t|
          ensures t[i] != s[0]
        {
          assert t[i] == s[i + 1];
        }
      }
      if s[0] == x {
        assert x !in t;
        assert Remove(t, x) == t by {
          RemoveAbsent(t, x);
        }
      } else {
        var r := [s[0]] + Remove(t, x);
        forall i, j | 0 <= i < j < |r|
          ensures r[i] != r[j]
        {
          if i == 0 {
            assert r[j] in Remove(t, x);
          } else {
            assert r[i] == Remove(t, x)[i - 1] && r[j] == Remove(t, x)[j - 1];
          }
        }
        assert x in s ==> x in t;
      }
    }
  }

  lemma {:induction false} RemoveAbsent(s: seq<nat>, x: nat)
    requires x !in s
    ensures Remove(s, x) == s
  {
    if s != [] {
      assert x !in s[1..];
      RemoveAbsent(s[1..], x);
    }
  }

  /** Node::push on the arena: c becomes the first child of p. */
  function PushArena(nodes: Arena, p: nat, c: nat): Arena
    requires p in nodes && c in nodes
  {
    nodes[c := nodes[c].(parent := Some(p))][p := nodes[p].(children := [c] + nodes[p].children)]
  }

  /** Node::pop on the arena: c leaves its parent's child list and becomes parentless. */
  function PopArena(nodes: Arena, c: nat): Arena
    requires c in nodes && nodes[c].parent.Some? && nodes[c].parent.value in nodes
  {
    var p := nodes[c].parent.value;
    nodes[p := nodes[p].(children := Remove(nodes[p].children, c))][c := nodes[c].(parent := None)]
  }

  /** Two arenas hold the same ids with the same contents and keys. */
  ghost predicate SameEntries(a: Arena, b: Arena)
  {
    a.Keys == b.Keys && forall id | id in a :: a[id].content == b[id].content && a[id].key == b[id].key
  }

  /** The link from id to its parent p is mirrored and ranked. */
  ghost predicate ParentOk(nodes: Arena, height: map<nat, nat>, id: nat, p: nat)
  {
    && p in nodes && p in height && id in height
    && id in nodes[p].children
    && height[id] < height[p]
  }

  ghost predicate NodeOk(nodes: Arena, height: map<nat, nat>, hmax: nat, slots: nat, id: nat)
    requires id in nodes
  {
    var n := nodes[id];
    && id in height && height[id] <= hmax
    && |n.children| <= slots
    && NoDup(n.children)
    && (forall c | c in n.children :: c in nodes && nodes[c].parent == Some(id))
    && (n.parent.Some? ==> ParentOk(nodes, height, id, n.parent.value))
  }

  /** Every node is well linked; no node has more children than there are root slots. */
  ghost predicate Linked(nodes: Arena, height: map<nat, nat>, hmax: nat, slots: nat)
  {
    forall id {:trigger NodeOk(nodes, height, hmax, slots, id)} | id in nodes :: NodeOk(nodes, height, hmax, slots, id)
  }

  /** A key is a number, and not below the key of its node's parent (heap order). */
  ghost predicate KeyOk(nodes: Arena, id: nat)
    requires id in nodes
  {
    && !nodes[id].key.NaN?
    && (nodes[id].parent.Some? && nodes[id].parent.value in nodes ==>
          !Less(nodes[id].key, nodes[nodes[id].parent.value].key))
  }

  ghost predicate Ordered(nodes: Arena)
  {
    forall id {:trigger KeyOk(nodes, id)} | id in nodes :: KeyOk(nodes, id)
  }

  /**
   * The slot a parentless node belongs in: its number of children, plus one
   * for a node in `shifted`, which has just lost a child and still sits one
   * slot higher.
   */
  function Slot(nodes: Arena, shifted: set<nat>, r: nat): nat
    requires r in nodes
  {
    |nodes[r].children| + if r in shifted then 1 else 0
  }

  ghost predicate RootAt(nodes: Arena, zeros: seq<nat>, loose: set<nat>, shifted: set<nat>, r: nat, d: nat)
  {
    r in nodes && nodes[r].parent.None? && r !in loose && r !in zeros && Slot(nodes, shifted, r) == d
  }

  /**
   * `roots` holds at most one tree per degree: slot d is empty or holds a
   * parentless node with d children, and every parentless node other than
   * the `zeros` and the `loose` ones (detached, about to be planted) is in
   * its slot.
   */
  ghost predicate Rooted(nodes: Arena, roots: seq<Option<nat>>, zeros: seq<nat>, loose: set<nat>, shifted: set<nat>)
  {
    && (forall d | 0 <= d < |roots| && roots[d].Some? :: RootAt(nodes, zeros, loose, shifted, roots[d].value, d))
    && (forall id | id in nodes && nodes[id].parent.None? && id !in loose && id !in zeros ::
          Slot(nodes, shifted, id) < |roots| && roots[Slot(nodes, shifted, id)] == Some(id))
    && (forall id | id in loose :: id in nodes && nodes[id].parent.None? && id !in zeros)
  }

  /** The `zeros` are distinct, childless, parentless nodes. */
  ghost predicate ZerosOk(nodes: Arena, zeros: seq<nat>)
  {
    && NoDup(zeros)
    && forall z | z in zeros :: z in nodes && nodes[z].parent.None? && nodes[z].children == []
  }

  /** The keys of the `zeros` are at most 0. */
  ghost predicate ZeroKeys(nodes: Arena, zeros: seq<nat>)
  {
    forall z | z in zeros && z in nodes :: !Less(Finite(0.0), nodes[z].key)
  }

  ghost predicate HeapInv(nodes: Arena, roots: seq<Option<nat>>, zeros: seq<nat>, nextId: nat,
                          height: map<nat, nat>, hmax: nat, loose: set<nat>, shifted: set<nat>)
  {
    && (forall id | id in nodes :: id < nextId)
    && Linked(nodes, height, hmax, |roots|)
    && Ordered(nodes)
    && Rooted(nodes, roots, zeros, loose, shifted)
    && ZerosOk(nodes, zeros)
    && ZeroKeys(nodes, zeros)
  }

  lemma SameEntriesTrans(a: Arena, b: Arena, c: Arena)
    requires SameEntries(a, b) && SameEntries(b, c)
    ensures SameEntries(a, c)
  {
  }

  /** Two arenas with the same ids, parents and children. */
  ghost predicate SameShape(a: Arena, b: Arena)
  {
    a.Keys == b.Keys && forall id | id in a :: a[id].parent == b[id].parent && a[id].children == b[id].children
  }

  lemma LinkedSameShape(nodes: Arena, nodes': Arena, height: map<nat, nat>, hmax: nat, slots: nat)
    requires Linked(nodes, height, hmax, slots) && SameShape(nodes, nodes')
    ensures Linked(nodes', height, hmax, slots)
  {
    forall id | id in nodes'
      ensures NodeOk(nodes', height, hmax, slots, id)
    {
      assert NodeOk(nodes, height, hmax, slots, id);
      if nodes[id].parent.Some? {
        assert ParentOk(nodes, height, id, nodes[id].parent.value);
      }
    }
  }

  lemma RootedSameShape(nodes: Arena, nodes': Arena, roots: seq<Option<nat>>, zeros: seq<nat>,
                        loose: set<nat>, shifted: set<nat>)
    requires Rooted(nodes, roots, zeros, loose, shifted) && SameShape(nodes, nodes')
    ensures Rooted(nodes', roots, zeros, loose, shifted)
  {
    forall d | 0 <= d < |roots| && roots[d].Some?
      ensures RootAt(nodes', zeros, loose, shifted, roots[d].value, d)
    {
      assert RootAt(nodes, zeros, loose, shifted, roots[d].value, d);
    }
    forall id | id in nodes' && nodes'[id].parent.None? && id !in loose && id !in zeros
      ensures Slot(nodes', shifted, id) < |roots| && roots[Slot(nodes', shifted, id)] == Some(id)
    {
      assert Slot(nodes', shifted, id) == Slot(nodes, shifted, id);
    }
  }

  lemma ZerosSameShape(nodes: Arena, nodes': Arena, zeros: seq<nat>)
    requires ZerosOk(nodes, zeros) && SameShape(nodes, nodes')
    ensures ZerosOk(nodes', zeros)
  {
  }

  /** Marking or unmarking a node keeps the invariant. */
  lemma PhiKeeps(nodes: Arena, roots: seq<Option<nat>>, zeros: seq<nat>, nextId: nat,
                 height: map<nat, nat>, hmax: nat, loose: set<nat>, shifted: set<nat>, n: nat, b: bool)
    requires HeapInv(nodes, roots, zeros, nextId, height, hmax, loose, shifted) && n in nodes
    ensures HeapInv(nodes[n := nodes[n].(phi := b)], roots, zeros, nextId, height, hmax, loose, shifted)
  {
    var nodes' := nodes[n := nodes[n].(phi := b)];
    assert SameShape(nodes, nodes');
    LinkedSameShape(nodes, nodes', height, hmax, |roots|);
    RootedSameShape(nodes, nodes', roots, zeros, loose, shifted);
    ZerosSameShape(nodes, nodes', zeros);
    forall id | id in nodes'
      ensures KeyOk(nodes', id)
    {
      assert KeyOk(nodes, id);
    }
  }

  /** Lowering the key of a parentless node keeps the heap order below it. */
  lemma KeyDown(nodes: Arena, roots: seq<Option<nat>>, zeros: seq<nat>, nextId: nat,
                height: map<nat, nat>, hmax: nat, loose: set<nat>, shifted: set<nat>, n: nat, k: Num)
    requires HeapInv(nodes, roots, zeros, nextId, height, hmax, loose, shifted) && n in nodes
    requires nodes[n].parent.None? && !k.NaN? && !Less(nodes[n].key, k)
    ensures HeapInv(nodes[n := nodes[n].(key := k)], roots, zeros, nextId, height, hmax, loose, shifted)
  {
    var nodes' := nodes[n := nodes[n].(key := k)];
    assert SameShape(nodes, nodes');
    LinkedSameShape(nodes, nodes', height, hmax, |roots|);
    RootedSameShape(nodes, nodes', roots, zeros, loose, shifted);
    ZerosSameShape(nodes, nodes', zeros);
    assert KeyOk(nodes, n);
    forall id | id in nodes'
      ensures KeyOk(nodes', id)
    {
      assert KeyOk(nodes, id);
      if nodes[id].parent == Some(n) {
        NotLessTransitive(nodes[id].key, nodes[n].key, k);
      }
    }
    forall z | z in zeros && z in nodes'
      ensures !Less(Finite(0.0), nodes'[z].key)
    {
      if z == n {
        NotLessTransitive(Finite(0.0), nodes[n].key, k);
      }
    }
  }

  /** Cutting c from its parent p makes c loose and leaves p one slot too high. */
  lemma PopKeeps(nodes: Arena, roots: seq<Option<nat>>, zeros: seq<nat>, nextId: nat,
                 height: map<nat, nat>, hmax: nat, loose: set<nat>, shifted: set<nat>, c: nat)
    requires HeapInv(nodes, roots, zeros, nextId, height, hmax, loose, shifted)
    requires c in nodes && nodes[c].parent.Some? && c !in loose && shifted <= {c}
    ensures nodes[c].parent.value in nodes && nodes[c].parent.value != c
    ensures HeapInv(PopArena(nodes, c), roots, zeros, nextId, height, hmax, loose + {c}, {nodes[c].parent.value})
  {
    assert NodeOk(nodes, height, hmax, |roots|, c);
    var p := nodes[c].parent.value;
    assert ParentOk(nodes, height, c, p);
    var nodes' := PopArena(nodes, c);
    PopLinked(nodes, height, hmax, |roots|, c);
    assert Ordered(nodes') by {
      forall id | id in nodes'
        ensures KeyOk(nodes', id)
      {
        assert KeyOk(nodes, id);
      }
    }
    assert NodeOk(nodes, height, hmax, |roots|, p);
    PopRooted(nodes, roots, zeros, loose, shifted, c);
    assert ZerosOk(nodes', zeros) by {
      forall z | z in zeros
        ensures z != c && z != p
      {
      }
    }
  }

  lemma PopLinked(nodes: Arena, height: map<nat, nat>, hmax: nat, slots: nat, c: nat)
    requires Linked(nodes, height, hmax, slots)
    requires c in nodes && nodes[c].parent.Some? && nodes[c].parent.value in nodes
    ensures Linked(PopArena(nodes, c), height, hmax, slots)
  {
    var p := nodes[c].parent.value;
    var nodes' := PopArena(nodes, c);
    assert NodeOk(nodes, height, hmax, slots, c);
    assert NodeOk(nodes, height, hmax, slots, p);
    RemoveOnce(nodes[p].children, c);
    forall id | id in nodes'
      ensures NodeOk(nodes', height, hmax, slots, id)
    {
      assert NodeOk(nodes, height, hmax, slots, id);
      if id != c && id != p {
        forall y | y in nodes[id].children
          ensures y != c
        {
          assert NodeOk(nodes, height, hmax, slots, y);
        }
      }
      if nodes[id].parent.Some? {
        assert ParentOk(nodes, height, id, nodes[id].parent.value);
      }
    }
  }

  lemma PopRooted(nodes: Arena, roots: seq<Option<nat>>, zeros: seq<nat>, loose: set<nat>, shifted: set<nat>, c: nat)
    requires Rooted(nodes, roots, zeros, loose, shifted) && ZerosOk(nodes, zeros)
    requires c in nodes && nodes[c].parent.Some? && nodes[c].parent.value in nodes && c !in loose && shifted <= {c}
    requires nodes[c].parent.value != c && c in nodes[nodes[c].parent.value].children
    requires NoDup(nodes[nodes[c].parent.value].children)
    ensures Rooted(PopArena(nodes, c), roots, zeros, loose + {c}, {nodes[c].parent.value})
  {
    var p := nodes[c].parent.value;
    var nodes' := PopArena(nodes, c);
    var loose', shifted' := loose + {c}, {p};
    RemoveOnce(nodes[p].children, c);
    forall d | 0 <= d < |roots| && roots[d].Some?
      ensures RootAt(nodes', zeros, loose', shifted', roots[d].value, d)
    {
      assert RootAt(nodes, zeros, loose, shifted, roots[d].value, d);
    }
    forall id | id in nodes' && nodes'[id].parent.None? && id !in loose' && id !in zeros
      ensures Slot(nodes', shifted', id) < |roots| && roots[Slot(nodes', shifted', id)] == Some(id)
    {
      assert Slot(nodes', shifted', id) == Slot(nodes, shifted, id);
    }
  }

  /** Taking the tree in slot d out of `roots` makes it loose. */
  lemma RootTake(nodes: Arena, roots: seq<Option<nat>>, zeros: seq<nat>, nextId: nat,
                 height: map<nat, nat>, hmax: nat, loose: set<nat>, shifted: set<nat>, d: nat, m: nat)
    requires HeapInv(nodes, roots, zeros, nextId, height, hmax, loose, shifted)
    requires d < |roots| && roots[d] == Some(m) && shifted <= {m}
    ensures m in nodes && nodes[m].parent.None? && m !in loose && Slot(nodes, shifted, m) == d
    ensures HeapInv(nodes, roots[d := None], zeros, nextId, height, hmax, loose + {m}, {})
  {
    assert RootAt(nodes, zeros, loose, shifted, m, d);
    var roots' := roots[d := None];
    forall d' | 0 <= d' < |roots'| && roots'[d'].Some?
      ensures RootAt(nodes, zeros, loose + {m}, {}, roots'[d'].value, d')
    {
      assert RootAt(nodes, zeros, loose, shifted, roots[d'].value, d');
    }
    forall id | id in nodes && nodes[id].parent.None? && id !in loose + {m} && id !in zeros
      ensures Slot(nodes, {}, id) < |roots'| && roots'[Slot(nodes, {}, id)] == Some(id)
    {
      assert Slot(nodes, {}, id) == Slot(nodes, shifted, id);
    }
  }

  /** A loose node put into its empty slot (appended when the slot is one past the end). */
  lemma RootPlace(nodes: Arena, roots: seq<Option<nat>>, zeros: seq<nat>, nextId: nat,
                  height: map<nat, nat>, hmax: nat, loose: set<nat>, n: nat)
    requires HeapInv(nodes, roots, zeros, nextId, height, hmax, loose, {}) && n in loose
    requires var d := |nodes[n].children|; d == |roots| || (d < |roots| && roots[d].None?)
    ensures var d := |nodes[n].children|;
            HeapInv(nodes, if d == |roots| then roots + [Some(n)] else roots[d := Some(n)],
                    zeros, nextId, height, hmax, loose - {n}, {})
  {
    var d := |nodes[n].children|;
    var roots' := if d == |roots| then roots + [Some(n)] else roots[d := Some(n)];
    assert Linked(nodes, height, hmax, |roots'|) by {
      forall id | id in nodes
        ensures NodeOk(nodes, height, hmax, |roots'|, id)
      {
        assert NodeOk(nodes, height, hmax, |roots|, id);
      }
    }
    assert Rooted(nodes, roots', zeros, loose - {n}, {}) by {
      forall d' | 0 <= d' < |roots'| && roots'[d'].Some?
        ensures RootAt(nodes, zeros, loose - {n}, {}, roots'[d'].value, d')
      {
        if d' != d {
          assert RootAt(nodes, zeros, loose, {}, roots[d'].value, d');
        }
      }
      forall id | id in nodes && nodes[id].parent.None? && id !in loose - {n} && id !in zeros
        ensures Slot(nodes, {}, id) < |roots'| && roots'[Slot(nodes, {}, id)] == Some(id)
      {
        if id != n {
          assert roots[Slot(nodes, {}, id)] == Some(id);
        }
      }
    }
  }

  /** Linking loose c below loose p, when p's key is not above c's. */
  lemma PushKeeps(nodes: Arena, roots: seq<Option<nat>>, zeros: seq<nat>, nextId: nat,
                  height: map<nat, nat>, hmax: nat, loose: set<nat>, p: nat, c: nat)
    requires HeapInv(nodes, roots, zeros, nextId, height, hmax, loose, {})
    requires p in loose && c in loose && p != c
    requires !Less(nodes[c].key, nodes[p].key) && |nodes[p].children| < |roots|
    ensures p in height && c in height
    ensures var height' := height[p := Max(height[p], height[c] + 1)];
            HeapInv(PushArena(nodes, p, c), roots, zeros, nextId, height', Max(hmax, height'[p]), loose - {c}, {})
  {
    assert NodeOk(nodes, height, hmax, |roots|, p);
    assert NodeOk(nodes, height, hmax, |roots|, c);
    var nodes' := PushArena(nodes, p, c);
    PushLinked(nodes, height, hmax, |roots|, p, c);
    assert Ordered(nodes') by {
      forall id | id in nodes'
        ensures KeyOk(nodes', id)
      {
        assert KeyOk(nodes, id);
      }
    }
    PushRooted(nodes, roots, zeros, loose, p, c);
  }

  lemma PushLinked(nodes: Arena, height: map<nat, nat>, hmax: nat, slots: nat, p: nat, c: nat)
    requires Linked(nodes, height, hmax, slots)
    requires p in nodes && c in nodes && p != c && nodes[p].parent.None? && nodes[c].parent.None?
    requires |nodes[p].children| < slots
    ensures p in height && c in height
    ensures var height' := height[p := Max(height[p], height[c] + 1)];
            Linked(PushArena(nodes, p, c), height', Max(hmax, height'[p]), slots)
  {
    assert NodeOk(nodes, height, hmax, slots, p);
    assert NodeOk(nodes, height, hmax, slots, c);
    var height' := height[p := Max(height[p], height[c] + 1)];
    var hmax' := Max(hmax, height'[p]);
    var nodes' := PushArena(nodes, p, c);
    assert c !in nodes[p].children;
    assert NoDup([c] + nodes[p].children) by {
      var s := [c] + nodes[p].children;
      forall i, j | 0 <= i < j < |s|
        ensures s[i] != s[j]
      {
        if i > 0 {
          assert s[i] == nodes[p].children[i - 1] && s[j] == nodes[p].children[j - 1];
        } else {
          assert s[j] in nodes[p].children;
        }
      }
    }
    forall id | id in nodes'
      ensures NodeOk(nodes', height', hmax', slots, id)
    {
      assert NodeOk(nodes, height, hmax, slots, id);
      if id != c && id != p {
        forall y | y in nodes[id].children
          ensures y != c && y != p
        {
          assert NodeOk(nodes, height, hmax, slots, y);
        }
      }
      if nodes[id].parent.Some? {
        assert ParentOk(nodes, height, id, nodes[id].parent.value);
      }
    }
  }

  lemma PushRooted(nodes: Arena, roots: seq<Option<nat>>, zeros: seq<nat>, loose: set<nat>, p: nat, c: nat)
    requires Rooted(nodes, roots, zeros, loose, {})
    requires p in loose && c in loose && p != c
    ensures Rooted(PushArena(nodes, p, c), roots, zeros, loose - {c}, {})
  {
    var nodes' := PushArena(nodes, p, c);
    forall d | 0 <= d < |roots| && roots[d].Some?
      ensures RootAt(nodes', zeros, loose - {c}, {}, roots[d].value, d)
    {
      assert RootAt(nodes, zeros, loose, {}, roots[d].value, d);
    }
    forall id | id in nodes' && nodes'[id].parent.None? && id !in loose - {c} && id !in zeros
      ensures Slot(nodes', {}, id) < |roots| && roots[Slot(nodes', {}, id)] == Some(id)
    {
      assert Slot(nodes', {}, id) == Slot(nodes, {}, id);
    }
  }

  /** Dropping a node from `shifted` when it is loose or has a parent. */
  lemma ShiftDrop(nodes: Arena, roots: seq<Option<nat>>, zeros: seq<nat>, nextId: nat,
                  height: map<nat, nat>, hmax: nat, loose: set<nat>, x: nat)
    requires HeapInv(nodes, roots, zeros, nextId, height, hmax, loose, {x})
    requires x in loose || (x in nodes && nodes[x].parent.Some?)
    ensures HeapInv(nodes, roots, zeros, nextId, height, hmax, loose, {})
  {
    forall d | 0 <= d < |roots| && roots[d].Some?
      ensures RootAt(nodes, zeros, loose, {}, roots[d].value, d)
    {
      assert RootAt(nodes, zeros, loose, {x}, roots[d].value, d);
    }
    forall id | id in nodes && nodes[id].parent.None? && id !in loose && id !in zeros
      ensures Slot(nodes, {}, id) < |roots| && roots[Slot(nodes, {}, id)] == Some(id)
    {
      assert Slot(nodes, {}, id) == Slot(nodes, {x}, id);
    }
  }

  /** A loose node without children can be deleted. */
  lemma DeleteLoose(nodes: Arena, roots: seq<Option<nat>>, zeros: seq<nat>, nextId: nat,
                    height: map<nat, nat>, hmax: nat, m: nat)
    requires HeapInv(nodes, roots, zeros, nextId, height, hmax, {m}, {})
    requires nodes[m].children == []
    ensures HeapInv(nodes - {m}, roots, zeros, nextId, height, hmax, {}, {})
  {
    var nodes' := nodes - {m};
    assert Linked(nodes', height, hmax, |roots|) by {
      forall id | id in nodes'
        ensures NodeOk(nodes', height, hmax, |roots|, id)
      {
        assert NodeOk(nodes, height, hmax, |roots|, id);
        if nodes[id].parent.Some? {
          assert ParentOk(nodes, height, id, nodes[id].parent.value);
        }
      }
    }
    assert Ordered(nodes') by {
      forall id | id in nodes'
        ensures KeyOk(nodes', id)
      {
        assert KeyOk(nodes, id);
        if nodes[id].parent.Some? {
          assert NodeOk(nodes, height, hmax, |roots|, id);
          assert ParentOk(nodes, height, id, nodes[id].parent.value);
        }
      }
    }
    assert Rooted(nodes', roots, zeros, {}, {}) by {
      forall d | 0 <= d < |roots| && roots[d].Some?
        ensures RootAt(nodes', zeros, {}, {}, roots[d].value, d)
      {
        assert RootAt(nodes, zeros, {m}, {}, roots[d].value, d);
      }
      forall id | id in nodes' && nodes'[id].parent.None? && id !in zeros
        ensures Slot(nodes', {}, id) < |roots| && roots[Slot(nodes', {}, id)] == Some(id)
      {
        assert Slot(nodes', {}, id) == Slot(nodes, {}, id);
      }
    }
  }

  /** The most recent of the `zeros` can be deleted with it. */
  lemma DeleteZero(nodes: Arena, roots: seq<Option<nat>>, zeros: seq<nat>, nextId: nat,
                   height: map<nat, nat>, hmax: nat)
    requires HeapInv(nodes, roots, zeros, nextId, height, hmax, {}, {}) && zeros != []
    ensures HeapInv(nodes - {zeros[|zeros| - 1]}, roots, zeros[..|zeros| - 1], nextId, height, hmax, {}, {})
  {
    var z := zeros[|zeros| - 1];
    var zeros' := zeros[..|zeros| - 1];
    var nodes' := nodes - {z};
    assert z in zeros;
    assert forall y :: y in zeros' ==> y in zeros;
    assert z !in zeros' by {
      forall i | 0 <= i < |zeros'|
        ensures zeros'[i] != z
      {
        assert zeros'[i] == zeros[i];
      }
    }
    assert Linked(nodes', height, hmax, |roots|) by {
      forall id | id in nodes'
        ensures NodeOk(nodes', height, hmax, |roots|, id)
      {
        assert NodeOk(nodes, height, hmax, |roots|, id);
        if nodes[id].parent.Some? {
          assert ParentOk(nodes, height, id, nodes[id].parent.value);
        }
      }
    }
    assert Ordered(nodes') by {
      forall id | id in nodes'
        ensures KeyOk(nodes', id)
      {
        assert KeyOk(nodes, id);
        if nodes[id].parent.Some? {
          assert NodeOk(nodes, height, hmax, |roots|, id);
          assert ParentOk(nodes, height, id, nodes[id].parent.value);
        }
      }
    }
    assert Rooted(nodes', roots, zeros', {}, {}) by {
      forall d | 0 <= d < |roots| && roots[d].Some?
        ensures RootAt(nodes', zeros', {}, {}, roots[d].value, d)
      {
        assert RootAt(nodes, zeros, {}, {}, roots[d].value, d);
      }
      forall id | id in nodes' && nodes'[id].parent.None? && id !in zeros'
        ensures Slot(nodes', {}, id) < |roots| && roots[Slot(nodes', {}, id)] == Some(id)
      {
        assert id !in zeros;
        assert Slot(nodes', {}, id) == Slot(nodes, {}, id);
      }
    }
    assert ZerosOk(nodes', zeros') by {
      forall i, j | 0 <= i < j < |zeros'|
        ensures zeros'[i] != zeros'[j]
      {
        assert zeros'[i] == zeros[i] && zeros'[j] == zeros[j];
      }
    }
  }

  /** A new parentless, childless node enters the arena as a loose node. */
  lemma AddLoose(nodes: Arena, roots: seq<Option<nat>>, zeros: seq<nat>, nextId: nat,
                 height: map<nat, nat>, hmax: nat, content: nat, key: Num)
    requires HeapInv(nodes, roots, zeros, nextId, height, hmax, {}, {}) && !key.NaN?
    ensures nextId !in nodes
    ensures HeapInv(nodes[nextId := Node(content, key, false, None, [])], roots, zeros, nextId + 1,
                    height[nextId := 0], hmax, {nextId}, {})
  {
    var nodes' := nodes[nextId := Node(content, key, false, None, [])];
    var height' := height[nextId := 0];
    assert Linked(nodes', height', hmax, |roots|) by {
      forall id | id in nodes'
        ensures NodeOk(nodes', height', hmax, |roots|, id)
      {
        if id != nextId {
          assert NodeOk(nodes, height, hmax, |roots|, id);
          if nodes[id].parent.Some? {
            assert ParentOk(nodes, height, id, nodes[id].parent.value);
          }
        }
      }
    }
    assert Ordered(nodes') by {
      forall id | id in nodes'
        ensures KeyOk(nodes', id)
      {
        if id != nextId {
          assert KeyOk(nodes, id);
          if nodes[id].parent.Some? {
            assert NodeOk(nodes, height, hmax, |roots|, id);
            assert ParentOk(nodes, height, id, nodes[id].parent.value);
          }
        }
      }
    }
    assert Rooted(nodes', roots, zeros, {nextId}, {}) by {
      forall d | 0 <= d < |roots| && roots[d].Some?
        ensures RootAt(nodes', zeros, {nextId}, {}, roots[d].value, d)
      {
        assert RootAt(nodes, zeros, {}, {}, roots[d].value, d);
      }
      forall id | id in nodes' && nodes'[id].parent.None? && id !in {nextId} && id !in zeros
        ensures Slot(nodes', {}, id) < |roots| && roots[Slot(nodes', {}, id)] == Some(id)
      {
        assert Slot(nodes', {}, id) == Slot(nodes, {}, id);
      }
      assert nextId !in zeros;
    }
  }

  /** The same node, when its key is the least possible, enters the `zeros`. */
  lemma AddZeroNode(nodes: Arena, roots: seq<Option<nat>>, zeros: seq<nat>, nextId: nat,
                    height: map<nat, nat>, hmax: nat, content: nat)
    requires HeapInv(nodes, roots, zeros, nextId, height, hmax, {}, {})
    ensures HeapInv(nodes[nextId := Node(content, Finite(0.0), false, None, [])], roots, zeros + [nextId],
                    nextId + 1, height[nextId := 0], hmax, {}, {})
  {
    var nodes' := nodes[nextId := Node(content, Finite(0.0), false, None, [])];
    var height' := height[nextId := 0];
    var zeros' := zeros + [nextId];
    AddLoose(nodes, roots, zeros, nextId, height, hmax, content, Finite(0.0));
    assert nextId !in zeros;
    assert forall y :: y in zeros' <==> y in zeros || y == nextId;
    assert Rooted(nodes', roots, zeros', {}, {}) by {
      forall d | 0 <= d < |roots| && roots[d].Some?
        ensures RootAt(nodes', zeros', {}, {}, roots[d].value, d)
      {
        assert RootAt(nodes', zeros, {nextId}, {}, roots[d].value, d);
      }
    }
    assert ZerosOk(nodes', zeros') by {
      forall i, j | 0 <= i < j < |zeros'|
        ensures zeros'[i] != zeros'[j]
      {
        if j < |zeros| {
          assert zeros'[i] == zeros[i] && zeros'[j] == zeros[j];
        } else {
          assert zeros'[i] in zeros;
        }
      }
    }
  }

  /** Following parents from any node reaches a parentless node whose key is not above its own. */
  lemma {:induction false} RootAbove(nodes: Arena, height: map<nat, nat>, hmax: nat, slots: nat, id: nat)
      returns (r: nat)
    requires Linked(nodes, height, hmax, slots) && Ordered(nodes) && id in nodes && id in height
    ensures r in nodes && nodes[r].parent.None? && !Less(nodes[id].key, nodes[r].key)
    decreases hmax - height[id]
  {
    assert NodeOk(nodes, height, hmax, slots, id);
    assert KeyOk(nodes, id);
    if nodes[id].parent.None? {
      r := id;
      LessIrreflexive(nodes[id].key);
    } else {
      var p := nodes[id].parent.value;
      assert ParentOk(nodes, height, id, p);
      assert NodeOk(nodes, height, hmax, slots, p);
      r := RootAbove(nodes, height, hmax, slots, p);
      assert KeyOk(nodes, p) && KeyOk(nodes, r);
      NotLessTransitive(nodes[id].key, nodes[p].key, nodes[r].key);
    }
  }

  /**
   * Linking two trees of degree d in plant: the one with the smaller key takes
   * the other as its first child, and the pair leaves slot d.
   */
  lemma MergeKeeps(nodes: Arena, roots: seq<Option<nat>>, zeros: seq<nat>, nextId: nat,
                   height: map<nat, nat>, hmax: nat, loose: set<nat>, n: nat, d: nat, top: nat, below: nat)
    requires HeapInv(nodes, roots, zeros, nextId, height, hmax, loose, {})
    requires n in loose && n in nodes && d == |nodes[n].children| && d < |roots| && roots[d].Some?
    requires var m := roots[d].value;
             m in nodes &&
             if Less(nodes[n].key, nodes[m].key) then top == n && below == m else top == m && below == n
    ensures var m := roots[d].value; m !in loose && top in loose + {m} - {below} && below != top
    ensures top in nodes && below in nodes && top in height && below in height
    ensures var H := height[top := Max(height[top], height[below] + 1)];
            HeapInv(PushArena(nodes, top, below), roots[d := None], zeros, nextId, H, Max(hmax, H[top]),
                    loose + {roots[d].value} - {below}, {})
    ensures |PushArena(nodes, top, below)[top].children| == d + 1
    ensures SameEntries(nodes, PushArena(nodes, top, below))
  {
    var m := roots[d].value;
    RootTake(nodes, roots, zeros, nextId, height, hmax, loose, {}, d, m);
    if Less(nodes[n].key, nodes[m].key) {
      LessAsymmetric(nodes[n].key, nodes[m].key);
    }
    PushKeeps(nodes, roots[d := None], zeros, nextId, height, hmax, loose + {m}, top, below);
  }

  /** Every root slot in use holds a parentless node of the arena whose key is a number. */
  lemma RootsInArena(nodes: Arena, roots: seq<Option<nat>>, zeros: seq<nat>, nextId: nat,
                     height: map<nat, nat>, hmax: nat)
    requires HeapInv(nodes, roots, zeros, nextId, height, hmax, {}, {})
    ensures forall d | 0 <= d < |roots| && roots[d].Some? ::
              roots[d].value in nodes && nodes[roots[d].value].parent.None? && !nodes[roots[d].value].key.NaN?
  {
    forall d | 0 <= d < |roots| && roots[d].Some?
      ensures roots[d].value in nodes && nodes[roots[d].value].parent.None? && !nodes[roots[d].value].key.NaN?
    {
      assert RootAt(nodes, zeros, {}, {}, roots[d].value, d);
      assert KeyOk(nodes, roots[d].value);
    }
  }

  /** Without `zeros`, a key not above any root is not above any key at all. */
  lemma MinOfRoots(nodes: Arena, roots: seq<Option<nat>>, zeros: seq<nat>, nextId: nat,
                   height: map<nat, nat>, hmax: nat, m: nat)
    requires HeapInv(nodes, roots, zeros, nextId, height, hmax, {}, {}) && zeros == [] && m in nodes
    requires forall d | 0 <= d < |roots| && roots[d].Some? && roots[d].value in nodes ::
               !Less(nodes[roots[d].value].key, nodes[m].key)
    ensures forall id | id in nodes :: !Less(nodes[id].key, nodes[m].key)
  {
    forall id | id in nodes
      ensures !Less(nodes[id].key, nodes[m].key)
    {
      assert NodeOk(nodes, height, hmax, |roots|, id);
      var r := RootAbove(nodes, height, hmax, |roots|, id);
      var d := Slot(nodes, {}, r);
      assert roots[d] == Some(r);
      assert KeyOk(nodes, id) && KeyOk(nodes, r) && KeyOk(nodes, m);
      NotLessTransitive(nodes[id].key, nodes[r].key, nodes[m].key);
    }
  }

  /** Without `zeros`, a heap whose root slots are all empty has no nodes. */
  lemma EmptyRoots(nodes: Arena, roots: seq<Option<nat>>, zeros: seq<nat>, nextId: nat,
                   height: map<nat, nat>, hmax: nat)
    requires HeapInv(nodes, roots, zeros, nextId, height, hmax, {}, {}) && zeros == []
    requires forall d | 0 <= d < |roots| :: roots[d].None?
    ensures nodes == map[]
  {
    if id :| id in nodes {
      assert NodeOk(nodes, height, hmax, |roots|, id);
      var r := RootAbove(nodes, height, hmax, |roots|, id);
      assert false;
    }
  }

  class Heap {
    var nodes: Arena
    var roots: seq<Option<nat>>
    var zeros: seq<nat>
    /** The next unused node id. */
    var nextId: nat
    ghost var height: map<nat, nat>
    ghost var hmax: nat

    ghost predicate Inv(loose: set<nat>, shifted: set<nat>)
      reads this
    {
      HeapInv(nodes, roots, zeros, nextId, height, hmax, loose, shifted)
    }

    ghost predicate Valid()
      reads this
    {
      Inv({}, {})
    }

    constructor ()
      ensures Valid() && nodes == map[] && roots == [] && zeros == []
    {
      nodes, roots, zeros, nextId := map[], [], [], 0;
      height, hmax := map[], 0;
    }

    /** Node::push: c becomes the first child of p, and p's size grows by one. */
    method Push(p: nat, c: nat)
      requires p in nodes && c in nodes && p != c && p in height && c in height
      modifies this
      ensures nodes == PushArena(old(nodes), p, c)
      ensures height == old(height)[p := Max(old(height)[p], old(height)[c] + 1)]
      ensures hmax == Max(old(hmax), height[p])
      ensures roots == old(roots) && zeros == old(zeros) && nextId == old(nextId)
    {
      var pn, cn := nodes[p], nodes[c];
      nodes := nodes[c := cn.(parent := Some(p))];
      nodes := nodes[p := pn.(children := [c] + pn.children)];
      height := height[p := Max(height[p], height[c] + 1)];
      hmax := Max(hmax, height[p]);
    }

    /** Node::pop: c is unlinked from its siblings and its parent's size drops by one. */
    method Pop(c: nat)
      requires c in nodes && nodes[c].parent.Some? && nodes[c].parent.value in nodes
      requires nodes[c].parent.value != c
      modifies this
      ensures nodes == PopArena(old(nodes), c)
      ensures roots == old(roots) && zeros == old(zeros) && nextId == old(nextId)
      ensures height == old(height) && hmax == old(hmax)
    {
      var p := nodes[c].parent.value;
      var pn := nodes[p];
      nodes := nodes[p := pn.(children := Remove(pn.children, c))];
      nodes := nodes[c := nodes[c].(parent := None)];
    }

    /**
     * plant: puts the loose tree n into the slot of its degree; when that slot
     * is taken, links the two trees (the smaller key on top) and plants the
     * result one slot higher.
     */
    method Plant(n: nat, ghost loose: set<nat>)
      requires n in loose && Inv(loose, {})
      modifies this
      ensures Inv(loose - {n}, {})
      ensures SameEntries(old(nodes), nodes)
      ensures forall id | id in loose - {n} :: nodes[id] == old(nodes)[id]
      ensures zeros == old(zeros) && nextId == old(nextId)
      decreases |roots| - |nodes[n].children|
    {
      PhiKeeps(nodes, roots, zeros, nextId, height, hmax, loose, {}, n, false);
      ghost var n0 := nodes;
      nodes := nodes[n := nodes[n].(phi := false)];
      ghost var n1 := nodes;
      assert SameEntries(n0, n1);
      assert NodeOk(nodes, height, hmax, |roots|, n);
      var d := |nodes[n].children|;
      if |roots| == d {
        RootPlace(nodes, roots, zeros, nextId, height, hmax, loose, n);
        roots := roots + [Some(n)];
      } else if roots[d].None? {
        RootPlace(nodes, roots, zeros, nextId, height, hmax, loose, n);
        roots := roots[d := Some(n)];
      } else {
        var m := roots[d].value;
        var top, below := Link(n, d, m, loose);
        ghost var n2 := nodes;
        SameEntriesTrans(n0, n1, n2);
        Plant(top, loose + {m} - {below});
        SameEntriesTrans(n0, n2, nodes);
      }
    }

    /**
     * The linking step of plant: the loose tree n meets the root m in slot d;
     * the one with the smaller key (m on a tie) becomes the parent of the other.
     */
    method Link(n: nat, d: nat, m: nat, ghost loose: set<nat>) returns (top: nat, below: nat)
      requires n in loose && Inv(loose, {}) && n in nodes
      requires d == |nodes[n].children| && d < |roots| && roots[d] == Some(m)
      modifies this
      ensures {top, below} == {n, m} && top != below
      ensures Less(old(nodes)[n].key, old(nodes)[m].key) <==> top == n
      ensures Inv(loose + {m} - {below}, {}) && top in loose + {m} - {below}
      ensures loose + {m} - {below} - {top} == loose - {n}
      ensures |roots| == |old(roots)| && |nodes[top].children| == d + 1
      ensures SameEntries(old(nodes), nodes)
      ensures forall id | id in loose - {n} :: nodes[id] == old(nodes)[id]
      ensures zeros == old(zeros) && nextId == old(nextId)
    {
      top, below := n, m;
      if !Less(nodes[n].key, nodes[m].key) {
        top, below := m, n;
      }
      MergeKeeps(nodes, roots, zeros, nextId, height, hmax, loose, n, d, top, below);
      roots := roots[d := None];
      Push(top, below);
    }

    /**
     * iter: walks up from n, whose child has just been cut. A root is moved
     * out of the slot it still occupies and replanted; a marked node is cut
     * too and the walk goes on at its parent; an unmarked node is marked and
     * the walk ends.
     */
    method Iter(n: nat, ghost loose: set<nat>)
      requires Inv(loose, {n}) && n in nodes && n in height && n !in loose && n !in zeros
      requires forall l | l in loose :: l in height && height[l] < height[n]
      modifies this
      ensures Inv(loose, {})
      ensures SameEntries(old(nodes), nodes)
      ensures forall id | id in loose :: nodes[id] == old(nodes)[id]
      ensures zeros == old(zeros) && nextId == old(nextId)
      ensures old(nodes)[n].parent.Some? && !old(nodes)[n].phi ==>
                nodes == old(nodes)[n := old(nodes)[n].(phi := true)] && roots == old(roots)
      decreases hmax - height[n], 1
    {
      assert NodeOk(nodes, height, hmax, |roots|, n);
      if nodes[n].parent.None? {
        var slot := 1 + |nodes[n].children|;
        assert Slot(nodes, {n}, n) == slot;
        RootTake(nodes, roots, zeros, nextId, height, hmax, loose, {n}, slot, n);
        roots := roots[slot := None];
        Plant(n, loose + {n});
        assert loose + {n} - {n} == loose;
      } else if nodes[n].phi {
        CutMarked(n, loose);
      } else {
        PhiKeeps(nodes, roots, zeros, nextId, height, hmax, loose, {n}, n, true);
        nodes := nodes[n := nodes[n].(phi := true)];
        ShiftDrop(nodes, roots, zeros, nextId, height, hmax, loose, n);
      }
    }

    /** Cuts n, which was shifted, from its parent p: n joins the loose trees and p is left one slot too high. */
    method Detach(n: nat, ghost loose: set<nat>, ghost shifted: set<nat>) returns (p: nat)
      requires shifted <= {n} && Inv(loose, shifted) && n in nodes && n in height && n !in loose && n !in zeros
      requires nodes[n].parent.Some?
      requires forall l | l in loose :: l in height && height[l] < height[n]
      modifies this
      ensures p == old(nodes)[n].parent.value && p != n
      ensures Inv(loose + {n}, {p}) && p in nodes && p in height && p !in loose && p !in zeros
      ensures forall l | l in loose + {n} :: l in height && height[l] < height[p]
      ensures SameEntries(old(nodes), nodes)
      ensures forall id | id in loose :: nodes[id] == old(nodes)[id]
      ensures zeros == old(zeros) && nextId == old(nextId) && height == old(height) && hmax == old(hmax)
    {
      assert NodeOk(nodes, height, hmax, |roots|, n);
      p := nodes[n].parent.value;
      assert ParentOk(nodes, height, n, p);
      assert NodeOk(nodes, height, hmax, |roots|, p);
      assert p !in loose && height[n] < height[p];
      PopKeeps(nodes, roots, zeros, nextId, height, hmax, loose, shifted, n);
      Pop(n);
    }

    /** The marked case of iter: n is cut from its parent, the walk goes on there, and n is replanted. */
    method CutMarked(n: nat, ghost loose: set<nat>)
      requires Inv(loose, {n}) && n in nodes && n in height && n !in loose && n !in zeros
      requires nodes[n].parent.Some? && nodes[n].phi
      requires forall l | l in loose :: l in height && height[l] < height[n]
      modifies this
      ensures Inv(loose, {})
      ensures SameEntries(old(nodes), nodes)
      ensures forall id | id in loose :: nodes[id] == old(nodes)[id]
      ensures zeros == old(zeros) && nextId == old(nextId)
      decreases hmax - height[n], 0
    {
      assert NodeOk(nodes, height, hmax, |roots|, n);
      ghost var n0 := nodes;
      var p := Detach(n, loose, {n});
      ghost var n1 := nodes;
      Iter(p, loose + {n});
      SameEntriesTrans(n0, n1, nodes);
      ghost var n2 := nodes;
      Plant(n, loose + {n});
      SameEntriesTrans(n0, n2, nodes);
      assert loose + {n} - {n} == loose;
    }

    /**
     * add: a new node for `content` with key `key`; it goes to `zeros` when
     * the key is the least possible and is planted otherwise.
     */
    method Add(content: nat, key: Num) returns (h: nat)
      requires Valid() && !key.NaN?
      modifies this
      ensures Valid()
      ensures h !in old(nodes) && nodes.Keys == old(nodes).Keys + {h}
      ensures nodes[h].content == content && nodes[h].key == key
      ensures forall id | id in old(nodes) :: nodes[id].content == old(nodes)[id].content && nodes[id].key == old(nodes)[id].key
      ensures IsZero(key) ==> zeros == old(zeros) + [h] && roots == old(roots)
      ensures !IsZero(key) ==> zeros == old(zeros)
    {
      h := nextId;
      if IsZero(key) {
        AddZeroNode(nodes, roots, zeros, nextId, height, hmax, content);
        nodes := nodes[h := Node(content, key, false, None, [])];
        zeros := zeros + [h];
      } else {
        AddLoose(nodes, roots, zeros, nextId, height, hmax, content, key);
        nodes := nodes[h := Node(content, key, false, None, [])];
      }
      height := height[h := 0];
      nextId := nextId + 1;
      if !IsZero(key) {
        Plant(h, {h});
      }
    }

    /**
     * decrease: called once the key of node h has dropped to k. A root (or a
     * zero) stays where it is; any other node is cut, the cut cascades up
     * through marked ancestors, and the cut node is replanted.
     */
    method Decrease(h: nat, k: Num)
      requires Valid() && h in nodes && !k.NaN? && !Less(nodes[h].key, k)
      modifies this
      ensures Valid()
      ensures SameEntries(old(nodes)[h := old(nodes)[h].(key := k)], nodes)
      ensures zeros == old(zeros) && nextId == old(nextId)
      ensures old(nodes)[h].parent.None? ==> nodes == old(nodes)[h := old(nodes)[h].(key := k)] && roots == old(roots)
    {
      if nodes[h].parent.Some? {
        ghost var target := nodes[h := nodes[h].(key := k)];
        var p := Cut(h, k);
        ghost var cut := nodes;
        Iter(p, {h});
        SameEntriesTrans(target, cut, nodes);
        ghost var walked := nodes;
        Plant(h, {h});
        SameEntriesTrans(target, walked, nodes);
      } else {
        KeyDown(nodes, roots, zeros, nextId, height, hmax, {}, {}, h, k);
        nodes := nodes[h := nodes[h].(key := k)];
      }
    }

    /** The first step of decrease for a node with a parent: h is cut loose and takes key k. */
    method Cut(h: nat, k: Num) returns (p: nat)
      requires Valid() && h in nodes && nodes[h].parent.Some? && !k.NaN? && !Less(nodes[h].key, k)
      modifies this
      ensures p == old(nodes)[h].parent.value && p != h
      ensures Inv({h}, {p}) && p in nodes && p !in zeros
      ensures h in height && p in height && height[h] < height[p]
      ensures SameEntries(old(nodes)[h := old(nodes)[h].(key := k)], nodes)
      ensures zeros == old(zeros) && nextId == old(nextId)
    {
      ghost var target := nodes[h := nodes[h].(key := k)];
      ghost var n0 := nodes;
      assert NodeOk(nodes, height, hmax, |roots|, h);
      p := Detach(h, {}, {});
      assert nodes[h].key == n0[h].key;
      KeyDown(nodes, roots, zeros, nextId, height, hmax, {h}, {p}, h, k);
      nodes := nodes[h := nodes[h].(key := k)];
      assert SameEntries(target, nodes);
    }

    /**
     * extract_min: the most recent of the `zeros` if there is one; otherwise
     * the first root with the least key, whose children are planted before
     * it is deleted; None when the heap is empty.
     */
    method ExtractMin() returns (r: Option<nat>, ghost h: nat)
      requires Valid()
      modifies this
      ensures Valid()
      ensures r.None? <==> old(nodes) == map[]
      ensures r.None? <==> old(zeros) == [] && forall d | 0 <= d < |old(roots)| :: old(roots)[d].None?
      ensures r.None? ==> nodes == old(nodes)
      ensures r.Some? ==> h in old(nodes) && r.value == old(nodes)[h].content && SameEntries(old(nodes) - {h}, nodes)
      ensures old(zeros) != [] ==>
                h == old(zeros)[|old(zeros)| - 1] && zeros == old(zeros)[..|old(zeros)| - 1] &&
                !Less(Finite(0.0), old(nodes)[h].key)
      ensures old(zeros) == [] && r.Some? ==>
                zeros == [] && forall id | id in old(nodes) :: !Less(old(nodes)[id].key, old(nodes)[h].key)
    {
      h := 0;
      if zeros != [] {
        var z := zeros[|zeros| - 1];
        h := z;
        assert z in zeros;
        DeleteZero(nodes, roots, zeros, nextId, height, hmax);
        r := Some(nodes[z].content);
        nodes := nodes - {z};
        zeros := zeros[..|zeros| - 1];
        return;
      }
      var min := FindMin();
      if min.None? {
        return None, h;
      }
      var m := min.value;
      h := m;
      r := Some(nodes[m].content);
      DeleteRoot(m);
    }

    /**
     * The scan of extract_min over the root slots: the first root with the
     * least key, which is the least key of the heap; None when every slot is
     * empty, and then the heap holds no node.
     */
    method FindMin() returns (min: Option<nat>)
      requires Valid() && zeros == []
      ensures min.None? <==> forall d | 0 <= d < |roots| :: roots[d].None?
      ensures min.None? ==> nodes == map[]
      ensures min.Some? ==> min.value in nodes && min in roots && nodes[min.value].parent.None?
      ensures min.Some? ==> forall id | id in nodes :: !Less(nodes[id].key, nodes[min.value].key)
    {
      min := None;
      var i := 0;
      RootsInArena(nodes, roots, zeros, nextId, height, hmax);
      while i < |roots|
        invariant 0 <= i <= |roots|
        invariant min.None? <==> forall d | 0 <= d < i :: roots[d].None?
        invariant min.Some? ==> min.value in nodes && !nodes[min.value].key.NaN?
        invariant min.Some? ==> min in roots[..i]
        invariant min.Some? ==> forall d | 0 <= d < i && roots[d].Some? :: !Less(nodes[roots[d].value].key, nodes[min.value].key)
      {
        if roots[i].Some? {
          assert RootAt(nodes, zeros, {}, {}, roots[i].value, i);
          assert NodeOk(nodes, height, hmax, |roots|, roots[i].value);
          if min.None? || Less(nodes[roots[i].value].key, nodes[min.value].key) {
            if min.Some? {
              forall d | 0 <= d < i && roots[d].Some?
                ensures !Less(nodes[roots[d].value].key, nodes[roots[i].value].key)
              {
                assert RootAt(nodes, zeros, {}, {}, roots[d].value, d);
                assert NodeOk(nodes, height, hmax, |roots|, roots[d].value);
                NotLessLess(nodes[roots[d].value].key, nodes[min.value].key, nodes[roots[i].value].key);
              }
            }
            LessIrreflexive(nodes[roots[i].value].key);
            min := roots[i];
          }
        }
        assert roots[..i + 1] == roots[..i] + [roots[i]];
        i := i + 1;
      }
      assert roots[..i] == roots;
      if min.Some? {
        var d :| 0 <= d < |roots| && roots[d] == min;
        assert RootAt(nodes, zeros, {}, {}, min.value, d);
      }
      if min.None? {
        EmptyRoots(nodes, roots, zeros, nextId, height, hmax);
      } else {
        MinOfRoots(nodes, roots, zeros, nextId, height, hmax, min.value);
      }
    }

    /** One turn of the loop of extract_min over the children of the loose node m. */
    method PlantFirstChild(m: nat)
      requires Inv({m}, {}) && m in nodes && nodes[m].children != []
      modifies this
      ensures Inv({m}, {}) && m in nodes && |nodes[m].children| < |old(nodes)[m].children|
      ensures SameEntries(old(nodes), nodes) && zeros == old(zeros) && nextId == old(nextId)
    {
      var c := nodes[m].children[0];
      assert NodeOk(nodes, height, hmax, |roots|, m);
      assert NodeOk(nodes, height, hmax, |roots|, c);
      PopKeeps(nodes, roots, zeros, nextId, height, hmax, {m}, {}, c);
      RemoveOnce(nodes[m].children, c);
      Pop(c);
      ShiftDrop(nodes, roots, zeros, nextId, height, hmax, {m, c}, m);
      Plant(c, {m, c});
      assert {m, c} - {c} == {m};
    }

    /**
     * The rest of extract_min once the least root m is found: m leaves its
     * slot, each of its children is cut and planted, and m is deleted.
     */
    method DeleteRoot(m: nat)
      requires Valid() && zeros == [] && m in nodes && nodes[m].parent.None?
      modifies this
      ensures Valid() && zeros == []
      ensures SameEntries(old(nodes) - {m}, nodes)
    {
      var d := |nodes[m].children|;
      assert Slot(nodes, {}, m) == d;
      RootTake(nodes, roots, zeros, nextId, height, hmax, {}, {}, d, m);
      roots := roots[d := None];
      ghost var start := nodes;
      while nodes[m].children != []
        invariant Inv({m}, {}) && m in nodes && zeros == []
        invariant SameEntries(start, nodes)
        decreases |nodes[m].children|
      {
        ghost var before := nodes;
        PlantFirstChild(m);
        SameEntriesTrans(start, before, nodes);
      }
      DeleteLoose(nodes, roots, zeros, nextId, height, hmax, m);
      nodes := nodes - {m};
    }
  }
}
