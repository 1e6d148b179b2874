/**
 * partition.cpp: a partition of the customers {0, ..., n-1} kept in two views
 * at once, the assignment `_x` (element to subset) and the subset list `_v`,
 * stepped through in decreasing lexicographic order of `_x`, skipping
 * subsets larger than the capacity `_u`.
 */
module PartitionIterator {
  import opened Rgs

  /**
   * The capacity `_u` is a double that defaults to +infinity. A subset of k
   * elements fits when k <= _u; for a finite _u that is k <= floor(_u).
   */
  datatype Capacity = Unbounded | AtMost(limit: int)

  predicate Fits(u: Capacity, k: nat)
  {
    u.Unbounded? || k <= u.limit
  }

  /** Every subset of the partition that `t` stands for fits the capacity. */
  ghost predicate Legal(u: Capacity, t: seq<nat>)
  {
    IsRgs(t) && forall b :: 0 <= b < BlockCount(t) ==> Fits(u, |BlocksOf(t)[b]|)
  }

  /** `y` completed to length n by opening a new singleton subset per element. */
  ghost function Completed(y: seq<nat>, n: nat): seq<nat>
    decreases n - |y|
  {
    if |y| >= n then y else Completed(y + [BlockCount(y)], n)
  }

  /** Adding one element changes only the size of the subset it joins. */
  lemma LegalSnoc(u: Capacity, c: seq<nat>, j: nat)
    requires IsRgs(c) && j <= BlockCount(c)
    ensures IsRgs(c + [j]) && j < |BlocksOf(c + [j])|
    ensures Legal(u, c + [j]) <==> Legal(u, c) && Fits(u, |BlocksOf(c + [j])[j]|)
  {
    RgsExtend(c, j);
    var P, p := BlocksOf(c), BlocksOf(c + [j]);
    if Legal(u, c) && Fits(u, |p[j]|) {
      forall b | 0 <= b < BlockCount(c + [j])
        ensures Fits(u, |p[b]|)
      {
        if b != j {
          assert p[b] == P[b];
        }
      }
    }
    if Legal(u, c + [j]) {
      forall b | 0 <= b < BlockCount(c)
        ensures Fits(u, |P[b]|)
      {
        assert Fits(u, |p[b]|);
        assert |P[b]| <= |p[b]|;
      }
    }
  }

  /** Legality is inherited by prefixes: subsets only grow as elements are added. */
  lemma {:induction false} LegalPrefix(u: Capacity, t: seq<nat>, k: nat)
    requires Legal(u, t) && k <= |t|
    ensures Legal(u, t[..k])
    decreases |t|
  {
    if k < |t| {
      var c := t[..|t| - 1];
      assert t == c + [t[|t| - 1]];
      LegalSnoc(u, c, t[|t| - 1]);
      assert t[..k] == c[..k];
      LegalPrefix(u, c, k);
    } else {
      assert t[..k] == t;
    }
  }

  /** The completion extends y to a restricted growth string of length n. */
  lemma {:induction false} CompletedShape(y: seq<nat>, n: nat)
    requires IsRgs(y) && |y| <= n
    ensures IsRgs(Completed(y, n)) && |Completed(y, n)| == n
    ensures Completed(y, n)[..|y|] == y
    decreases n - |y|
  {
    if |y| < n {
      var y' := y + [BlockCount(y)];
      RgsExtend(y, BlockCount(y));
      CompletedShape(y', n);
      var z := Completed(y, n);
      assert z[..|y|] == z[..|y'|][..|y|];
    } else {
      assert y[..|y|] == y;
    }
  }

  /** The completion of a legal prefix is legal when a singleton subset fits. */
  lemma {:induction false} CompletedLegal(u: Capacity, y: seq<nat>, n: nat)
    requires Legal(u, y) && Fits(u, 1) && |y| <= n
    ensures Legal(u, Completed(y, n))
    decreases n - |y|
  {
    if |y| < n {
      var B := BlockCount(y);
      LegalSnoc(u, y, B);
      RgsExtend(y, B);
      assert BlocksOf(y + [B])[B] == [|y|];
      CompletedLegal(u, y + [B], n);
    }
  }

  /** The completion is the lexicographically greatest string of length n extending y. */
  lemma {:induction false} CompletedGreatest(y: seq<nat>, n: nat)
    requires IsRgs(y) && |y| <= n
    ensures forall t :: IsRgs(t) && |t| == n && t[..|y|] == y ==>
              Before(t, Completed(y, n)) || t == Completed(y, n)
    decreases n - |y|
  {
    if |y| < n {
      var B := BlockCount(y);
      var y' := y + [B];
      RgsExtend(y, B);
      CompletedGreatest(y', n);
      CompletedShape(y', n);
      var z := Completed(y, n);
      assert z == Completed(y', n);
      forall t | IsRgs(t) && |t| == n && t[..|y|] == y
        ensures Before(t, z) || t == z
      {
        GreatestStep(y, t, z);
      }
    } else {
      forall t | IsRgs(t) && |t| == n && t[..|y|] == y
        ensures t == Completed(y, n)
      {
        assert t[..|y|] == t;
      }
    }
  }

  /**
   * One step of CompletedGreatest: a string t extending y either takes the
   * new subset at position |y|, and then extends y + [BlockCount(y)] like z
   * does, or takes an old subset there, and then is below z.
   */
  lemma GreatestStep(y: seq<nat>, t: seq<nat>, z: seq<nat>)
    requires IsRgs(y) && IsRgs(t) && |y| < |t| == |z| && t[..|y|] == y
    requires z[..|y| + 1] == y + [BlockCount(y)]
    requires t[..|y| + 1] == y + [BlockCount(y)] ==> Before(t, z) || t == z
    ensures Before(t, z) || t == z
  {
    var B := BlockCount(y);
    RgsPrefix(t, |y| + 1);
    assert t[..|y| + 1] == y + [t[|y|]];
    assert t[..|y| + 1][..|y|] == y;
    RgsExtend(y, t[|y|]);
    if t[|y|] == B {
      PrefixSnoc(t, y, B);
    } else {
      BeforeSnoc(t, y, B);
      BeforeExtend(t, y + [B], z);
    }
  }

  /** Being below a prefix of z means being below z. */
  lemma BeforeExtend(t: seq<nat>, y: seq<nat>, z: seq<nat>)
    requires Before(t, y) && |y| <= |z| && z[..|y|] == y
    ensures Before(t, z)
  {
    var k :| 0 <= k < |y| && k < |t| && t[..k] == y[..k] && t[k] < y[k];
    assert z[..k] == z[..|y|][..k];
    assert z[k] == z[..|y|][k];
  }

  /** From the empty partition the completion is the all-singletons partition. */
  lemma {:induction false} CompletedSingletons(y: seq<nat>, n: nat)
    requires IsRgs(y) && y == Singletons(|y|) && |y| <= n
    ensures Completed(y, n) == Singletons(n)
    decreases n - |y|
  {
    if |y| < n {
      SingletonsRgs(|y|);
      assert y + [BlockCount(y)] == Singletons(|y| + 1);
      RgsExtend(y, BlockCount(y));
      CompletedSingletons(y + [BlockCount(y)], n);
    }
  }

  /** As many subsets as elements happens only for the all-singletons partition. */
  lemma {:induction false} FirstIsSingletons(t: seq<nat>)
    requires IsRgs(t)
    ensures BlockCount(t) == |t| <==> t == Singletons(|t|)
  {
    if t != [] {
      var c, j := t[..|t| - 1], t[|t| - 1];
      assert t == c + [j];
      RgsBounds(c);
      FirstIsSingletons(c);
      assert BlockCount(t) == Max(BlockCount(c), j + 1);
      if BlockCount(t) == |t| {
        assert j == |c| && BlockCount(c) == |c|;
        assert t == Singletons(|c|) + [|c|];
      }
      if t == Singletons(|t|) {
        assert c == Singletons(|c|);
      }
    }
    SingletonsRgs(|t|);
  }

  /**
   * While next_partition walks back from the start string s, every legal
   * complete string below s is below the current string x: none extends x.
   */
  ghost predicate NoneSkipped(u: Capacity, x: seq<nat>, s: seq<nat>)
  {
    forall t {:trigger Before(t, s)} :: Legal(u, t) && |t| == |s| && Before(t, s) ==> Before(t, x)
  }

  /** An illegal move from subset i+1 to subset i skips nothing: no legal string extends it. */
  lemma SkipIllegal(u: Capacity, c: seq<nat>, i: nat, s: seq<nat>)
    requires |c| < |s|
    requires NoneSkipped(u, c + [i + 1], s) && !Legal(u, c + [i])
    ensures NoneSkipped(u, c + [i], s)
  {
    forall t | Legal(u, t) && |t| == |s| && Before(t, s)
      ensures Before(t, c + [i])
    {
      BeforeSnoc(t, c, i + 1);
      BeforeSnoc(t, c, i);
      IllegalNotPrefix(u, c, i, t);
    }
  }

  /** A legal string does not extend an illegal prefix. */
  lemma IllegalNotPrefix(u: Capacity, c: seq<nat>, j: nat, t: seq<nat>)
    requires |c| < |t| && Legal(u, t) && !Legal(u, c + [j])
    ensures !(t[..|c|] == c && t[|c|] == j)
  {
    if t[..|c|] == c && t[|c|] == j {
      PrefixSnoc(t, c, j);
      LegalPrefix(u, t, |c| + 1);
      assert false;
    }
  }

  /** Unplacing an element that sat in subset 0 skips nothing. */
  lemma SkipZero(u: Capacity, c: seq<nat>, s: seq<nat>)
    requires |c| < |s| && NoneSkipped(u, c + [0], s)
    ensures NoneSkipped(u, c, s)
  {
    forall t | Legal(u, t) && |t| == |s| && Before(t, s)
      ensures Before(t, c)
    {
      BeforeSnoc(t, c, 0);
    }
  }

  /** A legal move from subset i+1 to subset i leaves every legal string below s at or below the new prefix. */
  lemma SkipNone(u: Capacity, c: seq<nat>, i: nat, s: seq<nat>)
    requires |c| < |s| && NoneSkipped(u, c + [i + 1], s)
    ensures forall t :: Legal(u, t) && |t| == |s| && Before(t, s) ==>
              Before(t, c + [i]) || t[..|c| + 1] == c + [i]
  {
    forall t | Legal(u, t) && |t| == |s| && Before(t, s)
      ensures Before(t, c + [i]) || t[..|c| + 1] == c + [i]
    {
      BeforeSnoc(t, c, i + 1);
      BeforeSnoc(t, c, i);
      PrefixSnoc(t, c, i);
    }
  }

  /** A string that extends a string below s is itself below s. */
  lemma BeforeFromPrefix(y: seq<nat>, z: seq<nat>, s: seq<nat>)
    requires Before(y, s) && |y| <= |z| && z[..|y|] == y
    ensures Before(z, s)
  {
    var k :| 0 <= k < |s| && k < |y| && y[..k] == s[..k] && y[k] < s[k];
    assert z[..k] == z[..|y|][..k];
    assert z[k] == z[..|y|][k];
  }

  /**
   * y is a legal prefix below s, and every legal complete string below s is
   * below y or extends it.
   */
  ghost predicate GreatestPrefix(u: Capacity, y: seq<nat>, s: seq<nat>)
  {
    && Legal(u, y) && |y| <= |s| && Before(y, s)
    && forall t {:trigger Before(t, s)} :: Legal(u, t) && |t| == |s| && Before(t, s) ==>
         Before(t, y) || t[..|y|] == y
  }

  /**
   * r is what next_partition should give for the legal complete partition s:
   * the lexicographically greatest legal complete partition below s, or all
   * singletons when there is none.
   */
  ghost predicate IsNext(u: Capacity, s: seq<nat>, r: seq<nat>)
  {
    if exists t :: Legal(u, t) && |t| == |s| && Before(t, s)
    then Legal(u, r) && |r| == |s| && Before(r, s) &&
         forall t :: Legal(u, t) && |t| == |s| && Before(t, s) ==> Before(t, r) || t == r
    else r == Singletons(|s|)
  }

  /** When no legal string skipped by the walk lies below s, the answer is the singletons. */
  lemma WrapResult(u: Capacity, s: seq<nat>)
    requires NoneSkipped(u, [], s)
    ensures IsNext(u, s, Completed([], |s|))
  {
    CompletedSingletons([], |s|);
    forall t | Legal(u, t) && |t| == |s|
      ensures !Before(t, s)
    {
      assert !Before(t, []);
    }
  }

  /** The string after a successful move is the greatest legal string below s. */
  lemma MoveResult(u: Capacity, y: seq<nat>, s: seq<nat>)
    requires GreatestPrefix(u, y, s) && Fits(u, 1)
    ensures IsNext(u, s, Completed(y, |s|))
  {
    var z := Completed(y, |s|);
    CompletedShape(y, |s|);
    CompletedLegal(u, y, |s|);
    CompletedGreatest(y, |s|);
    BeforeFromPrefix(y, z, s);
    forall t | Legal(u, t) && |t| == |s| && Before(t, s)
      ensures Before(t, z) || t == z
    {
      if Before(t, y) {
        BeforeExtend(t, y, z);
      }
    }
  }

  /**
   * The state of next_partition's walk back from s: the current string x
   * agrees with s except that its last entry may be lower, and, when s is a
   * legal complete string (`tracked`), nothing legal below s was skipped.
   */
  ghost predicate Walking(u: Capacity, x: seq<nat>, s: seq<nat>, tracked: bool)
  {
    && |x| <= |s|
    && (x != [] ==> x[..|x| - 1] == s[..|x| - 1] && x[|x| - 1] <= s[|x| - 1])
    && (tracked ==> Legal(u, s) && Fits(u, 1) && NoneSkipped(u, x, s))
  }

  lemma WalkStart(u: Capacity, s: seq<nat>, tracked: bool)
    requires tracked ==> Legal(u, s) && Fits(u, 1)
    ensures Walking(u, s, s, tracked)
  {
  }

  /** The part of the current string before its last entry is legal. */
  lemma WalkPrefixLegal(u: Capacity, c: seq<nat>, j: nat, s: seq<nat>, tracked: bool)
    requires Walking(u, c + [j], s, tracked) && tracked
    ensures Legal(u, c)
  {
    assert (c + [j])[..|c|] == c;
    LegalPrefix(u, s, |c|);
  }

  /** After an illegal move from subset i+1 to subset i the walk goes on from c + [i]. */
  lemma WalkIllegal(u: Capacity, c: seq<nat>, i: nat, s: seq<nat>, tracked: bool)
    requires Walking(u, c + [i + 1], s, tracked)
    requires tracked ==> !Legal(u, c + [i])
    ensures Walking(u, c + [i], s, tracked)
  {
    assert (c + [i + 1])[..|c|] == c;
    assert (c + [i])[..|c|] == c;
    if tracked {
      SkipIllegal(u, c, i, s);
    }
  }

  /** Unplacing an element of subset 0 continues the walk from c. */
  lemma WalkZero(u: Capacity, c: seq<nat>, s: seq<nat>, tracked: bool)
    requires Walking(u, c + [0], s, tracked)
    ensures Walking(u, c, s, tracked)
  {
    assert (c + [0])[..|c|] == c;
    if c != [] {
      assert c[..|c| - 1] == s[..|c|][..|c| - 1];
      assert c[|c| - 1] == s[..|c|][|c| - 1];
    }
    if tracked {
      SkipZero(u, c, s);
    }
  }

  /** A legal move from subset i+1 to subset i ends the walk at the greatest legal prefix. */
  lemma WalkFound(u: Capacity, c: seq<nat>, i: nat, s: seq<nat>)
    requires Walking(u, c + [i + 1], s, true) && Legal(u, c + [i])
    ensures GreatestPrefix(u, c + [i], s)
  {
    assert (c + [i + 1])[..|c|] == c;
    SkipNone(u, c, i, s);
    BeforeSnoc(s, c, i);
  }

  /** Where the walk stands once c + [i] has replaced c + [i + 1]. */
  lemma WalkPlaced(u: Capacity, c: seq<nat>, i: nat, s: seq<nat>, tracked: bool, legal: bool)
    requires Walking(u, c + [i + 1], s, tracked)
    requires tracked ==> (legal <==> Legal(u, c + [i]))
    ensures legal && tracked ==> GreatestPrefix(u, c + [i], s)
    ensures !legal ==> Walking(u, c + [i], s, tracked)
  {
    if legal && tracked {
      WalkFound(u, c, i, s);
    } else if !legal {
      WalkIllegal(u, c, i, s, tracked);
    }
  }

  /** Walking back to the empty string means nothing legal lies below s. */
  lemma WalkEmpty(u: Capacity, s: seq<nat>)
    requires Walking(u, [], s, true)
    ensures IsNext(u, s, Completed([], |s|))
  {
    WrapResult(u, s);
  }

  class Partition {
    /** |_D|: the number of customers; the points themselves are not needed here. */
    const n: nat
    /** _u */
    const u: Capacity
    /** _x: _x[m] is the subset holding element m */
    var x: seq<nat>
    /** _v: the subsets, each listing its elements in increasing order */
    var v: Blocks

    /** The two views agree (element m is in _v[_x[m]], no subset empty). */
    ghost predicate Valid()
      reads this
    {
      IsRgs(x) && v == BlocksOf(x) && |x| <= n
    }

    /**
     * The constructor, after reading the customers, starts from the
     * all-singletons partition.
     */
    constructor (count: nat, capacity: Capacity)
      ensures Valid() && n == count && u == capacity
      ensures x == Singletons(count)
    {
      n, u := count, capacity;
      x, v := [], [];
      new;
      CreateSingletonSubsets();
      CompletedSingletons([], count);
    }

    /**
     * place(i): puts the lowest unplaced element |_x| into subset i, a new
     * subset when i == |_v|, and reports whether that subset now fits the
     * capacity; an illegal placement is not undone.
     */
    method Place(i: nat) returns (legal: bool)
      requires Valid() && |x| < n
      requires i <= |v|
      modifies this`x, this`v
      ensures Valid() && x == old(x) + [i]
      ensures v == Rgs.Place(old(v), i, |old(x)|)
      ensures legal <==> Fits(u, |v[i]|)
      ensures Legal(u, old(x)) ==> (legal <==> Legal(u, x))
    {
      RgsExtend(x, i);
      LegalSnoc(u, x, i);
      if i < |v| {
        v := v[i := v[i] + [|x|]];
        x := x + [i];
      } else {
        v := v + [[|x|]];
        x := x + [i];
      }
      legal := Fits(u, |v[i]|);
    }

    /**
     * unplace(): removes the highest placed element from _x and from the back
     * of its subset, deleting the subset when it becomes empty (it is then the
     * last one), and returns that subset's index.
     */
    method Unplace() returns (i: nat)
      requires Valid() && |x| > 0
      modifies this`x, this`v
      ensures Valid() && old(x) == x + [i]
      ensures i < |old(v)| && old(v)[i] != [] && v == Rgs.Unplace(old(v), i)
      ensures i <= |v| == BlockCount(x)
    {
      UnplaceLast(x);
      LastPlacedAtBack(x);
      i := x[|x| - 1];
      x := x[..|x| - 1];
      assert v[i] != [] && v[i][|v[i]| - 1] == |x|;
      v := v[i := v[i][..|v[i]| - 1]];
      if |v[i]| == 0 {
        v := v[..|v| - 1];
        assert |v| == i;
      }
    }

    /** create_singilton_subsets(): every unplaced element opens its own subset. */
    method CreateSingletonSubsets()
      requires Valid()
      modifies this`x, this`v
      ensures Valid() && |x| == n
      ensures x == Completed(old(x), n)
      ensures forall k :: |old(x)| <= k < n ==> x[k] == |old(v)| + (k - |old(x)|)
    {
      ghost var x0, b0 := x, |v|;
      while |x| < n
        invariant Valid() && |x0| <= |x| && x[..|x0|] == x0
        invariant Completed(x, n) == Completed(x0, n)
        invariant |v| == b0 + (|x| - |x0|)
        invariant forall k :: |x0| <= k < |x| ==> x[k] == b0 + (k - |x0|)
        decreases n - |x|
      {
        var _ := Place(|v|);
        assert x[..|x| - 1][..|x0|] == x0;
      }
    }

    /** is_first_partition(): as many subsets as elements, i.e. all singletons. */
    method IsFirstPartition() returns (first: bool)
      requires Valid()
      ensures first <==> BlockCount(x) == n
      ensures |x| == n ==> (first <==> x == Singletons(n))
    {
      first := |v| == n;
      FirstIsSingletons(x);
    }

    /**
     * One round of the loop of next_partition: the last element leaves its
     * subset and, unless that was subset 0, tries the previous subset; the
     * walk stops when that placement is legal.
     */
    method StepBack(ghost s: seq<nat>, ghost tracked: bool) returns (stop: bool)
      requires Valid() && Walking(u, x, s, tracked) && |x| > 0
      modifies this`x, this`v
      ensures Valid()
      ensures stop && tracked ==> GreatestPrefix(u, x, s)
      ensures !stop ==> Walking(u, x, s, tracked)
      ensures !stop ==> |x| < |old(x)| || (|x| == |old(x)| && x[|x| - 1] < old(x)[|x| - 1])
    {
      ghost var c, j := x[..|x| - 1], x[|x| - 1];
      assert x == c + [j];
      var formerIndex := Unplace();
      assert formerIndex == j && x == c;
      if formerIndex > 0 {
        stop := TryBelow(formerIndex - 1, c, s, tracked);
      } else {
        WalkZero(u, c, s, tracked);
        stop := false;
      }
    }

    /** The element just unplaced from subset i + 1 goes into subset i. */
    method TryBelow(i: nat, ghost c: seq<nat>, ghost s: seq<nat>, ghost tracked: bool) returns (stop: bool)
      requires Valid() && x == c && |x| < n && i < |v|
      requires Walking(u, c + [i + 1], s, tracked)
      modifies this`x, this`v
      ensures Valid()
      ensures stop && tracked ==> GreatestPrefix(u, x, s)
      ensures !stop ==> x == c + [i] && Walking(u, x, s, tracked)
    {
      if tracked {
        WalkPrefixLegal(u, c, i + 1, s, tracked);
      }
      var legal := Place(i);
      WalkPlaced(u, c, i, s, tracked, legal);
      stop := legal;
    }

    /**
     * next_partition(): walks back until the highest element that can legally
     * move to the next-lower subset, moves it, and refills the rest with
     * singletons; when no such move exists it wraps to all singletons.
     * Started from a legal complete partition, the result is the largest legal
     * complete partition lexicographically below it, or all singletons when
     * there is none.
     */
    method NextPartition()
      requires Valid()
      modifies this`x, this`v
      ensures Valid() && |x| == n
      ensures |old(x)| == n && Legal(u, old(x)) && Fits(u, 1) ==> IsNext(u, old(x), x)
    {
      ghost var s := x;
      ghost var tracked := |s| == n && Legal(u, s) && Fits(u, 1);
      ghost var found := false;
      WalkStart(u, s, tracked);
      while |x| > 0
        invariant Valid() && Walking(u, x, s, tracked)
        decreases |x|, if x == [] then 0 else x[|x| - 1]
      {
        var stop := StepBack(s, tracked);
        if stop {
          found := true;
          break;
        }
      }
      ghost var y := x;
      assert tracked ==> if found then GreatestPrefix(u, y, s) else y == [] && Walking(u, y, s, true);
      CreateSingletonSubsets();
      if tracked {
        if found {
          MoveResult(u, y, s);
        } else {
          WalkEmpty(u, s);
        }
      }
    }
  }
}
