/**
 * partitions.cpp: enumerate every partition of {0, ..., n-1} by backtracking
 * over a restricted growth stack `s` kept beside the block list `p`.
 *
 * The callback `f` is modelled by recording, in order, the block lists it is
 * applied to; the ghost list of stacks beside it carries the proof.
 */
module Partitions {
  import opened Rgs

  /** All strings of length k whose entries are below n (a finite set). */
  ghost function AllStrings(k: nat, n: nat): set<seq<nat>>
  {
    if k == 0 then {[]} else set t, x | t in AllStrings(k - 1, n) && 0 <= x < n :: t + [x]
  }

  lemma {:induction false} InAllStrings(t: seq<nat>, n: nat)
    requires forall i :: 0 <= i < |t| ==> t[i] < n
    ensures t in AllStrings(|t|, n)
  {
    if t != [] {
      var t' := t[..|t| - 1];
      InAllStrings(t', n);
      assert t == t' + [t[|t| - 1]];
    }
  }

  /** The complete stacks of length n not yet handed to `f` while the stack is s. */
  ghost function Pending(s: seq<nat>, n: nat): set<seq<nat>>
  {
    if s == [] then {} else set t | t in AllStrings(n, n) && IsRgs(t) && !Before(t, s)
  }

  /**
   * While backtracking from the complete stack s, the current stack `cur`
   * together with its extensions stands for the stacks up to and including s.
   */
  ghost predicate Frontier(cur: seq<nat>, s: seq<nat>)
  {
    |cur| <= |s| &&
    forall t {:trigger Before(t, s)} :: IsRgs(t) && |t| == |s| ==>
      ((Before(t, cur) || t[..|cur|] == cur) <==> (Before(t, s) || t == s))
  }

  /** After backtracking to s', the stacks below s' are those up to s. */
  ghost predicate Successor(s': seq<nat>, s: seq<nat>)
  {
    forall t {:trigger Before(t, s)} :: IsRgs(t) && |t| == |s| ==> ((s' == [] || Before(t, s')) <==> (Before(t, s) || t == s))
  }

  lemma FrontierStart(s: seq<nat>)
    ensures Frontier(s, s)
  {
    forall t | IsRgs(t) && |t| == |s|
      ensures (Before(t, s) || t[..|s|] == s) <==> (Before(t, s) || t == s)
    {
      assert t[..|s|] == t;
    }
  }

  /** Popping an element that cannot move higher keeps the frontier. */
  lemma {:induction false} FrontierPop(c: seq<nat>, j: nat, s: seq<nat>)
    requires IsRgs(c) && j == BlockCount(c) && |c| < |s|
    requires Frontier(c + [j], s)
    ensures Frontier(c, s)
  {
    forall t | IsRgs(t) && |t| == |s|
      ensures (Before(t, c) || t[..|c|] == c) <==> (Before(t, s) || t == s)
    {
      BeforeSnoc(t, c, j);
      PrefixSnoc(t, c, j);
      if t[..|c|] == c {
        RgsPrefix(t, |c| + 1);
        assert t[..|c| + 1][..|c|] == c;
      }
    }
  }

  /** Moving the popped element one block higher yields the successor. */
  lemma {:induction false} FrontierBump(c: seq<nat>, j: nat, s: seq<nat>)
    requires |c| < |s|
    requires Frontier(c + [j], s)
    ensures Successor(c + [j + 1], s)
  {
    forall t | IsRgs(t) && |t| == |s|
      ensures Before(t, c + [j + 1]) <==> (Before(t, s) || t == s)
    {
      BeforeSnoc(t, c, j + 1);
      BeforeSnoc(t, c, j);
      PrefixSnoc(t, c, j);
    }
  }

  /**
   * backtrack: pops the largest placed element (the back of `s` and of its
   * block) until that element can move one block higher, then places it there.
   * On return, the complete stacks lexicographically below the new stack are
   * exactly those below or equal to the old one; an empty result means none is
   * left.
   */
  method Backtrack(p: Blocks, s: seq<nat>) returns (p': Blocks, s': seq<nat>)
    requires IsRgs(s) && p == BlocksOf(s)
    ensures IsRgs(s') && p' == BlocksOf(s') && |s'| <= |s|
    ensures s' != [] ==> Before(s, s')
    ensures Successor(s', s)
  {
    p', s' := p, s;
    FrontierStart(s);
    while |s'| > 0
      invariant IsRgs(s') && p' == BlocksOf(s') && |s'| <= |s|
      invariant Frontier(s', s)
      decreases |s'|
    {
      ghost var c := s'[..|s'| - 1];
      ghost var P := p';
      var j := s'[|s'| - 1];
      UnplaceLast(s');
      assert s' == c + [j];
      s' := s'[..|s'| - 1];
      p' := p'[j := p'[j][..|p'[j]| - 1]];
      if |p'[j]| == 0 {
        p' := p'[..|p'| - 1];
      }
      assert p' == Unplace(P, j) == BlocksOf(c);
      if j + 1 <= |p'| {
        BumpStep(c, j, s);
        if j + 1 < |p'| {
          p' := p'[j + 1 := p'[j + 1] + [|s'|]];
        } else {
          p' := p' + [[|s'|]];
        }
        s' := s' + [j + 1];
        return;
      }
      RgsBounds(c + [j]);
      FrontierPop(c, j, s);
    }
  }

  /** The stopping step of backtrack establishes its postcondition. */
  lemma BumpStep(c: seq<nat>, j: nat, s: seq<nat>)
    requires IsRgs(c) && j + 1 <= BlockCount(c) && |c| < |s| && IsRgs(s)
    requires Frontier(c + [j], s)
    ensures IsRgs(c + [j + 1]) && BlocksOf(c + [j + 1]) == Place(BlocksOf(c), j + 1, |c|)
    ensures Before(s, c + [j + 1]) && Successor(c + [j + 1], s)
  {
    RgsExtend(c, j + 1);
    FrontierBump(c, j, s);
    BeforeIrreflexive(s);
  }

  lemma PendingPush(s: seq<nat>, n: nat)
    requires s != [] && |s| < n
    ensures Pending(s + [0], n) == Pending(s, n)
  {
    forall t | IsRgs(t) && |t| == n
      ensures Before(t, s + [0]) <==> Before(t, s)
    {
      BeforeSnoc(t, s, 0);
    }
  }

  lemma {:induction false} AllStringsLength(t: seq<nat>, k: nat, n: nat)
    requires t in AllStrings(k, n)
    ensures |t| == k
    decreases k
  {
    if k > 0 {
      var t', x :| t' in AllStrings(k - 1, n) && 0 <= x < n && t == t' + [x];
      AllStringsLength(t', k - 1, n);
    }
  }

  lemma PendingShrinks(s: seq<nat>, s': seq<nat>, n: nat)
    requires IsRgs(s) && |s| == n && s != [] && Successor(s', s)
    ensures Pending(s', n) < Pending(s, n)
  {
    RgsBounds(s);
    InAllStrings(s, n);
    BeforeIrreflexive(s);
    assert s in Pending(s, n);
    if s' != [] {
      forall t | t in Pending(s', n)
        ensures t in Pending(s, n) && t != s
      {
        AllStringsLength(t, n, n);
      }
    }
  }

  /**
   * apply_to_all_partitions(f, n): hands every partition of {0, ..., n-1} to
   * `f` exactly once. `calls` lists, in order, the block lists `f` receives;
   * `stacks` the stacks beside them, which strictly increase lexicographically
   * and run through every restricted growth string of length n. The loop only
   * tests `s.size() < n`, and the start partition is {{0}}: for n = 0 it
   * behaves as for n = 1.
   */
  method ApplyToAllPartitions(n: nat) returns (calls: seq<Blocks>, ghost stacks: seq<seq<nat>>)
    ensures |calls| == |stacks|
    ensures forall i :: 0 <= i < |stacks| ==>
              IsRgs(stacks[i]) && |stacks[i]| == Max(n, 1) && calls[i] == BlocksOf(stacks[i])
    ensures forall i, j :: 0 <= i < j < |stacks| ==> Before(stacks[i], stacks[j])
    ensures forall t :: IsRgs(t) && |t| == Max(n, 1) ==> t in stacks
  {
    ghost var m := Max(n, 1);
    var p: Blocks := [[0]];
    var s: seq<nat> := [0];
    assert IsRgs(s) && p == BlocksOf(s) by {
      assert s[..0] == [];
    }
    calls, stacks := [], [];
    while |s| > 0
      invariant IsRgs(s) && p == BlocksOf(s) && |s| <= m
      invariant |calls| == |stacks|
      invariant forall i :: 0 <= i < |stacks| ==>
                  IsRgs(stacks[i]) && |stacks[i]| == m && calls[i] == BlocksOf(stacks[i])
      invariant forall i, j :: 0 <= i < j < |stacks| ==> Before(stacks[i], stacks[j])
      invariant forall t {:trigger t in stacks} :: IsRgs(t) && |t| == m ==> (t in stacks <==> (s == [] || Before(t, s)))
      decreases Pending(s, m), m - |s|
    {
      if |s| < n {
        RgsBounds(s);
        RgsExtend(s, 0);
        PendingPush(s, m);
        forall t | IsRgs(t) && |t| == m
          ensures Before(t, s + [0]) <==> Before(t, s)
        {
          BeforeSnoc(t, s, 0);
        }
        p := p[0 := p[0] + [|s|]];
        s := s + [0];
      } else {
        ghost var s0, before := s, stacks;
        calls, stacks := calls + [p], stacks + [s];
        forall i, j | 0 <= i < j < |stacks|
          ensures Before(stacks[i], stacks[j])
        {
          if j == |before| {
            assert stacks[i] == before[i] && before[i] in before;
          } else {
            assert stacks[i] == before[i] && stacks[j] == before[j];
          }
        }
        p, s := Backtrack(p, s);
        PendingShrinks(s0, s, m);
      }
    }
  }

  /** `!Before(s, s)`: a string is not below itself. */
  lemma BeforeIrreflexive(s: seq<nat>)
    ensures !Before(s, s)
  {
  }

  /** Distinct restricted growth strings of one length give distinct block lists. */
  lemma BlocksOfInjective(t1: seq<nat>, t2: seq<nat>)
    requires IsRgs(t1) && IsRgs(t2) && |t1| == |t2|
    requires BlocksOf(t1) == BlocksOf(t2)
    ensures t1 == t2
  {
    BlocksOfDescribes(t1);
    BlocksOfDescribes(t2);
    var p := BlocksOf(t1);
    forall i | 0 <= i < |t1|
      ensures t1[i] == t2[i]
    {
      var b := t2[i];
      assert i in p[b];
      var k :| 0 <= k < |p[b]| && p[b][k] == i;
    }
  }

  /** No partition is handed to `f` twice. */
  lemma CallsDistinct(calls: seq<Blocks>, stacks: seq<seq<nat>>, n: nat)
    requires |calls| == |stacks|
    requires forall i :: 0 <= i < |stacks| ==>
               IsRgs(stacks[i]) && |stacks[i]| == n && calls[i] == BlocksOf(stacks[i])
    requires forall i, j :: 0 <= i < j < |stacks| ==> Before(stacks[i], stacks[j])
    ensures forall i, j :: 0 <= i < j < |calls| ==> calls[i] != calls[j]
  {
    forall i, j | 0 <= i < j < |calls|
      ensures calls[i] != calls[j]
    {
      if calls[i] == calls[j] {
        BlocksOfInjective(stacks[i], stacks[j]);
        BeforeIrreflexive(stacks[i]);
        assert false;
      }
    }
  }
}
