/**
 * Restricted growth strings: the common description of a set partition used by
 * partitions.cpp (the stack `s` beside the block list `p`) and by partition.cpp
 * (the assignment `_x` beside the subset list `_v`).
 *
 * Entry i of a string is the index of the block holding element i. A string
 * has restricted growth when every entry is at most the number of blocks used
 * by the entries before it, so block b is opened by the smallest element in it.
 */
module Rgs {

  /** A partition as a list of blocks, each block a list of elements. */
  type Blocks = seq<seq<nat>>

  function Max(a: nat, b: nat): nat { if a < b then b else a }

  /** The number of blocks the string uses: one more than its largest entry. */
  function BlockCount(s: seq<nat>): nat
  {
    if s == [] then 0 else Max(BlockCount(s[..|s| - 1]), s[|s| - 1] + 1)
  }

  /** Every entry opens at most one new block. */
  ghost predicate IsRgs(s: seq<nat>)
  {
    s == [] || (IsRgs(s[..|s| - 1]) && s[|s| - 1] <= BlockCount(s[..|s| - 1]))
  }

  /**
   * Puts element e into block j of p; j == |p| opens a new singleton block.
   * This is what both sources do with `push_back`.
   */
  function Place(p: Blocks, j: nat, e: nat): (r: Blocks)
    requires j <= |p|
    ensures |r| == if j < |p| then |p| else |p| + 1
    ensures r[j] == (if j < |p| then p[j] else []) + [e]
    ensures forall b :: 0 <= b < |p| && b != j ==> r[b] == p[b]
  {
    if j < |p| then p[j := p[j] + [e]] else p + [[e]]
  }

  /**
   * Removes the last element of block j; when that empties the block, the LAST
   * block of the list is dropped (`pop_back`), as both sources do.
   */
  function Unplace(p: Blocks, j: nat): Blocks
    requires j < |p| && p[j] != []
  {
    if |p[j]| == 1 then p[j := []][..|p| - 1] else p[j := p[j][..|p[j]| - 1]]
  }

  /** The block list a restricted growth string stands for. */
  function BlocksOf(s: seq<nat>): (p: Blocks)
    requires IsRgs(s)
    ensures |p| == BlockCount(s)
  {
    if s == [] then [] else Place(BlocksOf(s[..|s| - 1]), s[|s| - 1], |s| - 1)
  }

  /** The all-singletons string [0, 1, ..., n-1]. */
  function Singletons(n: nat): (s: seq<nat>)
    ensures |s| == n
    ensures forall i :: 0 <= i < n ==> s[i] == i
  {
    if n == 0 then [] else Singletons(n - 1) + [n - 1]
  }

  /**
   * p and s describe the same partition of {0, ..., |s|-1}: element i lies in
   * block s[i], every block lists exactly its elements in increasing order, and
   * no block is empty.
   */
  ghost predicate Describes(p: Blocks, s: seq<nat>)
  {
    && |p| == BlockCount(s)
    && (forall i :: 0 <= i < |s| ==> s[i] < |p| && i in p[s[i]])
    && (forall b :: 0 <= b < |p| ==> p[b] != [])
    && (forall b, k :: 0 <= b < |p| && 0 <= k < |p[b]| ==> p[b][k] < |s| && s[p[b][k]] == b)
    && (forall b, k, l :: 0 <= b < |p| && 0 <= k < l < |p[b]| ==> p[b][k] < p[b][l])
  }

  /** Entries of a restricted growth string are below its length. */
  lemma {:induction false} RgsBounds(s: seq<nat>)
    requires IsRgs(s)
    ensures BlockCount(s) <= |s|
    ensures forall i :: 0 <= i < |s| ==> s[i] < |s| && s[i] < BlockCount(s)
  {
    if s != [] {
      var s' := s[..|s| - 1];
      RgsBounds(s');
      assert forall i :: 0 <= i < |s'| ==> s[i] == s'[i];
    }
  }

  /** Prefixes of a restricted growth string have restricted growth. */
  lemma {:induction false} RgsPrefix(s: seq<nat>, k: nat)
    requires IsRgs(s) && k <= |s|
    ensures IsRgs(s[..k])
    decreases |s|
  {
    if k < |s| {
      var s' := s[..|s| - 1];
      assert s[..k] == s'[..k];
      RgsPrefix(s', k);
    } else {
      assert s[..k] == s;
    }
  }

  /** Extending a restricted growth string by an admissible entry. */
  lemma RgsExtend(s: seq<nat>, j: nat)
    requires IsRgs(s) && j <= BlockCount(s)
    ensures IsRgs(s + [j]) && (s + [j])[..|s|] == s
    ensures BlockCount(s + [j]) == Max(BlockCount(s), j + 1)
    ensures BlocksOf(s + [j]) == Place(BlocksOf(s), j, |s|)
  {
    var t := s + [j];
    assert t[..|t| - 1] == s && t[|t| - 1] == j;
    assert BlockCount(t) == Max(BlockCount(s), j + 1);
    assert IsRgs(t);
  }

  /** The all-singletons string has restricted growth, with one block per element. */
  lemma {:induction false} SingletonsRgs(n: nat)
    ensures IsRgs(Singletons(n)) && BlockCount(Singletons(n)) == n
  {
    if n > 0 {
      SingletonsRgs(n - 1);
      RgsExtend(Singletons(n - 1), n - 1);
    }
  }

  /** The block list of a restricted growth string describes it. */
  lemma {:induction false} BlocksOfDescribes(s: seq<nat>)
    requires IsRgs(s)
    ensures Describes(BlocksOf(s), s)
  {
    if s != [] {
      var s', j, e := s[..|s| - 1], s[|s| - 1], |s| - 1;
      BlocksOfDescribes(s');
      var P := BlocksOf(s');
      var p := BlocksOf(s);
      assert p == Place(P, j, e);
      forall i | 0 <= i < |s|
        ensures s[i] < |p| && i in p[s[i]]
      {
        if i < e {
          assert s[i] == s'[i];
          assert i in P[s[i]];
        }
      }
      forall b, k | 0 <= b < |p| && 0 <= k < |p[b]|
        ensures p[b][k] < |s| && s[p[b][k]] == b
      {
        if b == j && k == |p[b]| - 1 {
        } else {
          assert p[b][k] == P[b][k];
          assert s[P[b][k]] == s'[P[b][k]];
        }
      }
      forall b, k, l | 0 <= b < |p| && 0 <= k < l < |p[b]|
        ensures p[b][k] < p[b][l]
      {
        if b == j && l == |p[b]| - 1 {
          assert p[b][k] == P[b][k] < |s'|;
        } else {
          assert p[b][k] == P[b][k] && p[b][l] == P[b][l];
        }
      }
    }
  }

  /** Undoing the last placement restores the block list (place then unplace). */
  lemma UnplaceAfterPlace(s: seq<nat>, j: nat)
    requires IsRgs(s) && j <= BlockCount(s)
    ensures IsRgs(s + [j]) && j < |BlocksOf(s + [j])| && BlocksOf(s + [j])[j] != []
    ensures Unplace(BlocksOf(s + [j]), j) == BlocksOf(s)
  {
    RgsExtend(s, j);
    BlocksOfDescribes(s);
    var P := BlocksOf(s);
    if j < |P| {
      assert P[j] != [];
      UnplaceGrown(P, j, |s|);
    } else {
      UnplaceOpened(P, |s|);
    }
  }

  /** Removing the element just added to an existing block. */
  lemma UnplaceGrown(P: Blocks, j: nat, e: nat)
    requires j < |P| && P[j] != []
    ensures Place(P, j, e)[j] != [] && Unplace(Place(P, j, e), j) == P
  {
    var p := Place(P, j, e);
    assert p[j][..|p[j]| - 1] == P[j];
    assert p[j := P[j]] == P;
  }

  /** Removing the element that opened the last block. */
  lemma UnplaceOpened(P: Blocks, e: nat)
    ensures Unplace(Place(P, |P|, e), |P|) == P
  {
    var p := Place(P, |P|, e);
    assert p == P + [[e]];
    assert p[|P| := []][..|p| - 1] == P;
  }

  /** The same fact read backwards: unplacing the last element of a string. */
  lemma UnplaceLast(s: seq<nat>)
    requires IsRgs(s) && s != []
    ensures IsRgs(s[..|s| - 1])
    ensures s[|s| - 1] < |BlocksOf(s)| && BlocksOf(s)[s[|s| - 1]] != []
    ensures Unplace(BlocksOf(s), s[|s| - 1]) == BlocksOf(s[..|s| - 1])
  {
    var s' := s[..|s| - 1];
    assert s == s' + [s[|s| - 1]];
    UnplaceAfterPlace(s', s[|s| - 1]);
  }

  /**
   * The last element of a string sits at the back of its block, and when it is
   * alone there its block is the last one.
   */
  lemma LastPlacedAtBack(s: seq<nat>)
    requires IsRgs(s) && s != []
    ensures s[|s| - 1] < |BlocksOf(s)|
    ensures var b := BlocksOf(s)[s[|s| - 1]];
            b != [] && b[|b| - 1] == |s| - 1 && (|b| == 1 ==> s[|s| - 1] == |BlocksOf(s)| - 1)
  {
    var s', j := s[..|s| - 1], s[|s| - 1];
    assert s == s' + [j];
    RgsExtend(s', j);
    RgsBounds(s');
    BlocksOfDescribes(s');
  }

  /** `t` is lexicographically smaller than `s`: they agree up to k where t[k] < s[k]. */
  ghost predicate Before(t: seq<nat>, s: seq<nat>)
  {
    exists k :: 0 <= k < |s| && k < |t| && t[..k] == s[..k] && t[k] < s[k]
  }

  /** Lexicographic order on strings: `Before` or a proper prefix. */
  ghost predicate LexLess(t: seq<nat>, s: seq<nat>)
  {
    Before(t, s) || (|t| < |s| && t == s[..|t|])
  }

  /** Comparing with a string extended by one entry j. */
  lemma BeforeSnoc(t: seq<nat>, c: seq<nat>, j: nat)
    requires |c| < |t|
    ensures Before(t, c + [j]) <==> Before(t, c) || (t[..|c|] == c && t[|c|] < j)
  {
    var c' := c + [j];
    if Before(t, c') {
      var k :| 0 <= k < |c'| && k < |t| && t[..k] == c'[..k] && t[k] < c'[k];
      if k < |c| {
        assert c'[..k] == c[..k] && c'[k] == c[k];
      } else {
        assert c'[..k] == c;
      }
    }
    if Before(t, c) {
      var k :| 0 <= k < |c| && k < |t| && t[..k] == c[..k] && t[k] < c[k];
      assert c'[..k] == c[..k] && c'[k] == c[k];
    }
    if t[..|c|] == c && t[|c|] < j {
      assert c'[..|c|] == c;
    }
  }

  /** A string of length |c|+1 or more starts with c + [j] iff it starts with c and then j. */
  lemma PrefixSnoc(t: seq<nat>, c: seq<nat>, j: nat)
    requires |c| < |t|
    ensures t[..|c| + 1] == c + [j] <==> t[..|c|] == c && t[|c|] == j
  {
    if t[..|c|] == c && t[|c|] == j {
      assert t[..|c| + 1] == t[..|c|] + [t[|c|]];
    }
    if t[..|c| + 1] == c + [j] {
      assert t[..|c|] == t[..|c| + 1][..|c|];
    }
  }

  /** Strict lexicographic order is transitive. */
  lemma BeforeTransitive(a: seq<nat>, b: seq<nat>, c: seq<nat>)
    requires Before(a, b) && Before(b, c)
    ensures Before(a, c)
  {
    var k1 :| 0 <= k1 < |b| && k1 < |a| && a[..k1] == b[..k1] && a[k1] < b[k1];
    var k2 :| 0 <= k2 < |c| && k2 < |b| && b[..k2] == c[..k2] && b[k2] < c[k2];
    var k := if k1 < k2 then k1 else k2;
    assert a[..k] == c[..k] by {
      assert a[..k] == a[..k1][..k] && b[..k] == b[..k1][..k];
      assert b[..k] == b[..k2][..k] && c[..k] == c[..k2][..k];
    }
    if k1 < k2 {
      assert b[k1] == b[..k2][k1] == c[..k2][k1] == c[k1];
    } else if k2 < k1 {
      assert a[k2] == a[..k1][k2] == b[..k1][k2] == b[k2];
    }
  }
}
