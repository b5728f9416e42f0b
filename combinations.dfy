/**
 * CombinationGenerator (include/wirecc/wirecc.h:106-153): every k-element
 * combination of a container, one per `get`, chosen through a selection mask
 * (`std::vector<bool> bmap`) that starts as n-k falses followed by k trues and
 * is stepped with `std::next_permutation`.
 *
 * Masks are compared lexicographically with false < true. Rank(m) counts the
 * masks of the same length and number of trues that come before `m`; one
 * step of NextPermutation raises it by exactly one, so a generator over n >= 1
 * elements yields Binomial(n, k) distinct combinations before `hasNext` turns
 * false.
 */
module Combinations {

  // ------------------------------------------------------------ masks

  /** The number of selected positions. */
  function Count(m: seq<bool>): (c: nat)
    ensures c <= |m|
  {
    if m == [] then 0 else (if m[0] then 1 else 0) + Count(m[1..])
  }

  function Falses(n: nat): (r: seq<bool>)
    ensures |r| == n && forall i :: 0 <= i < n ==> !r[i]
  {
    seq(n, _ => false)
  }

  function Trues(n: nat): (r: seq<bool>)
    ensures |r| == n && forall i :: 0 <= i < n ==> r[i]
  {
    seq(n, _ => true)
  }

  /** The mask `get` starts from: `bmap.assign(n, false)`, then the last k set. */
  function FirstMask(n: nat, k: nat): (m: seq<bool>)
    requires k <= n
  {
    Falses(n - k) + Trues(k)
  }

  function Reverse(s: seq<bool>): (r: seq<bool>)
    ensures |r| == |s|
  {
    if s == [] then [] else Reverse(s[1..]) + [s[0]]
  }

  /** `m` rises at `p`: a false immediately followed by a true. */
  predicate Rise(m: seq<bool>, p: int)
  {
    0 <= p && p + 1 < |m| && !m[p] && m[p + 1]
  }

  /** No false is immediately followed by a true: the mask is non-increasing. */
  ghost predicate NoRise(m: seq<bool>)
  {
    forall p :: !Rise(m, p)
  }

  /** The last rise of `m` strictly before position `e - 1`, or -1 if there is none. */
  function LastRise(m: seq<bool>, e: nat): (i: int)
    requires e <= |m|
    ensures i == -1 || (0 <= i && i + 1 < e)
    ensures i >= 0 ==> Rise(m, i)
    ensures forall p :: i < p && p + 1 < e ==> !Rise(m, p)
  {
    if e < 2 then -1
    else if Rise(m, e - 2) then e - 2
    else LastRise(m, e - 1)
  }

  /** The position of the last true of `m`. */
  function LastTrue(m: seq<bool>): (j: nat)
    requires true in m
    ensures j < |m| && m[j]
    ensures forall p :: j < p < |m| ==> !m[p]
  {
    if m[|m| - 1] then |m| - 1 else LastTrue(m[..|m| - 1])
  }

  /**
   * std::next_permutation on a mask, with false < true: find the last rise i,
   * swap m[i] with the last true (which lies after i), reverse everything
   * after i and report true; with no rise, reverse the whole mask (it becomes
   * the smallest arrangement) and report false.
   */
  function NextPermutation(m: seq<bool>): (bool, seq<bool>)
  {
    var i := LastRise(m, |m|);
    if i < 0 then (false, Reverse(m)) else (true, Advance(m, i))
  }

  /** The advancing branch: set m[i], clear the last true, reverse what follows i. */
  function Advance(m: seq<bool>, i: nat): seq<bool>
    requires i < |m| && true in m
  {
    var j := LastTrue(m);
    var s := m[i := true][j := false];
    s[..i + 1] + Reverse(s[i + 1..])
  }

  /** `a` and `b` agree before position k, where `a` has false and `b` has true. */
  predicate LexLessAt(a: seq<bool>, b: seq<bool>, k: int)
  {
    |a| == |b| && 0 <= k < |a| && a[..k] == b[..k] && !a[k] && b[k]
  }

  ghost predicate LexLess(a: seq<bool>, b: seq<bool>)
  {
    exists k :: LexLessAt(a, b, k)
  }

  // ------------------------------------------------------------ counting

  function Binomial(n: nat, k: nat): nat
  {
    if k == 0 then 1
    else if n == 0 then 0
    else Binomial(n - 1, k - 1) + Binomial(n - 1, k)
  }

  /**
   * The number of masks with the length and number of trues of `m` that are
   * lexicographically smaller than `m`: a true at the front is preceded by
   * every mask that starts with false and places all the trues after it.
   */
  function Rank(m: seq<bool>): nat
  {
    if m == [] then 0
    else (if m[0] then Binomial(|m| - 1, Count(m)) else 0) + Rank(m[1..])
  }

  // ------------------------------------------------------------ selection

  /** The elements of `pool` at the selected positions, in pool order. */
  function Selected<T>(pool: seq<T>, m: seq<bool>): (r: seq<T>)
    requires |pool| == |m|
    ensures |r| == Count(m)
  {
    if m == [] then []
    else
      var n := |m| - 1;
      CountSnoc(m[..n], m[n]);
      assert m[..n] + [m[n]] == m;
      Selected(pool[..n], m[..n]) + (if m[n] then [pool[n]] else [])
  }

  ghost predicate Distinct<T>(s: seq<T>)
  {
    forall i, j :: 0 <= i < j < |s| ==> s[i] != s[j]
  }

  // ------------------------------------------------------------ the generator

  class CombinationGenerator<T> {
    /** The container's elements in iteration order, as `get` copies them into `elems`. */
    const pool: seq<T>
    const ssize: nat
    var bmap: seq<bool>
    var elems: seq<T>
    var greater: bool

    /** The mask is either not built yet, or a full-length mask selecting `ssize` elements. */
    ghost predicate Valid()
      reads this
    {
      (bmap == [] ==> elems == [] && !greater) &&
      (bmap != [] ==> |bmap| == |pool| && elems == pool && Count(bmap) == ssize)
    }

    constructor (pool: seq<T>, sampleSize: nat)
      ensures this.pool == pool && ssize == sampleSize
      ensures bmap == [] && elems == [] && !greater
      ensures Valid()
    {
      this.pool := pool;
      ssize := sampleSize;
      bmap, elems, greater := [], [], false;
    }

    /** hasNext: the last step advanced, or the mask is not built yet and k <= n. */
    predicate HasNext()
      reads this
    {
      greater || (bmap == [] && |pool| >= ssize)
    }

    /** The mask the next `get` reads: the initial one when none is built yet. */
    function CurrentMask(): seq<bool>
      reads this
      requires bmap == [] ==> ssize <= |pool|
    {
      if bmap == [] then FirstMask(|pool|, ssize) else bmap
    }

    /**
     * get: build the mask and copy the pool on first use, return the selected
     * elements in pool order, then step the mask with std::next_permutation.
     * With an empty pool the mask stays empty and is rebuilt on every call.
     */
    method Get() returns (ret: seq<T>)
      requires Valid()
      requires bmap == [] ==> ssize <= |pool|
      modifies this
      ensures Valid()
      ensures ret == Selected(pool, old(CurrentMask()))
      ensures (greater, bmap) == NextPermutation(old(CurrentMask()))
    {
      if bmap == [] {
        bmap := FirstMask(|pool|, ssize);
        FirstMaskCount(|pool|, ssize);
        var copied := elems;
        for i := 0 to |pool|
          invariant copied == pool[..i]
        {
          copied := copied + [pool[i]];
        }
        assert copied == pool;
        elems := copied;
      }
      var mask, items := bmap, elems;
      assert |items| == |mask| && items == pool;
      ret := [];
      for i := 0 to |mask|
        invariant ret == Selected(items[..i], mask[..i])
      {
        assert items[..i + 1][..i] == items[..i] && mask[..i + 1][..i] == mask[..i];
        if mask[i] {
          ret := ret + [items[i]];
        }
      }
      assert items[..|mask|] == pool && mask[..|mask|] == mask;
      NextPermutationKeeps(mask);
      greater, bmap := NextPermutation(mask).0, NextPermutation(mask).1;
    }
  }

  // ------------------------------------------------------------ mask lemmas

  lemma {:induction false} CountAppend(a: seq<bool>, b: seq<bool>)
    ensures Count(a + b) == Count(a) + Count(b)
    decreases |a|
  {
    if a != [] {
      var ab := a + b;
      assert ab != [] && ab[0] == a[0];
      assert ab[1..] == a[1..] + b;
      CountAppend(a[1..], b);
    } else {
      assert a + b == b;
    }
  }

  lemma CountSnoc(a: seq<bool>, x: bool)
    ensures Count(a + [x]) == Count(a) + (if x then 1 else 0)
  {
    CountAppend(a, [x]);
  }

  lemma {:induction false} CountTrues(n: nat)
    ensures Count(Trues(n)) == n
  {
    if n > 0 {
      assert Trues(n)[1..] == Trues(n - 1);
      CountTrues(n - 1);
    }
  }

  lemma {:induction false} CountFalses(n: nat)
    ensures Count(Falses(n)) == 0
  {
    if n > 0 {
      assert Falses(n)[1..] == Falses(n - 1);
      CountFalses(n - 1);
    }
  }

  /** The initial mask has length n and selects exactly k elements. */
  lemma FirstMaskCount(n: nat, k: nat)
    requires k <= n
    ensures |FirstMask(n, k)| == n && Count(FirstMask(n, k)) == k
  {
    CountAppend(Falses(n - k), Trues(k));
    CountFalses(n - k);
    CountTrues(k);
  }

  lemma {:induction false} ReverseIndex(s: seq<bool>, i: nat)
    requires i < |s|
    ensures Reverse(s)[i] == s[|s| - 1 - i]
  {
    if i < |s| - 1 {
      ReverseIndex(s[1..], i);
    }
  }

  /** Reversing a non-increasing shape gives the matching non-decreasing one. */
  lemma ReverseShape(a: nat, b: nat)
    ensures Reverse(Trues(a) + Falses(b)) == Falses(b) + Trues(a)
  {
    var s := Trues(a) + Falses(b);
    forall i | 0 <= i < |s|
      ensures Reverse(s)[i] == (Falses(b) + Trues(a))[i]
    {
      ReverseIndex(s, i);
    }
  }

  /** A mask without a rise is all its trues followed by all its falses. */
  lemma {:induction false} NoRiseShape(m: seq<bool>) returns (c: nat)
    requires NoRise(m)
    ensures c == Count(m) && c <= |m|
    ensures m == Trues(c) + Falses(|m| - c)
  {
    c := Count(m);
    if m != [] {
      var t := m[1..];
      assert NoRise(t) by {
        forall p
          ensures !Rise(t, p)
        {
          assert !Rise(m, p + 1);
        }
      }
      var ct := NoRiseShape(t);
      assert m == [m[0]] + t;
      if m[0] {
        assert c == ct + 1;
        assert m == Trues(ct + 1) + Falses(|t| - ct);
      } else {
        assert !Rise(m, 0);
        assert ct == 0;
        assert m == Trues(0) + Falses(|m|);
      }
    }
  }

  /** With no rise left before the end, the mask has no rise at all. */
  lemma NoLastRise(m: seq<bool>)
    requires LastRise(m, |m|) < 0
    ensures NoRise(m)
  {
  }

  /**
   * The part after the last rise i is a non-increasing run: a >= 1 trues
   * (m[i + 1] is one) then b falses.
   */
  lemma SuffixShape(m: seq<bool>, i: int) returns (p: seq<bool>, a: nat, b: nat)
    requires i == LastRise(m, |m|) && i >= 0
    ensures |p| == i && a >= 1
    ensures m == p + ([false] + Trues(a) + Falses(b))
  {
    var t := m[i + 1..];
    assert NoRise(t) by {
      forall q
        ensures !Rise(t, q)
      {
        assert q >= 0 ==> !Rise(m, i + 1 + q);
      }
    }
    var c := NoRiseShape(t);
    p, a, b := m[..i], c, |t| - c;
    assert t[0];
    assert m == m[..i] + [m[i]] + t;
  }

  /**
   * The advancing step on that shape: m[i] and the last true are swapped and
   * the run after i is reversed, so `false, a trues, b falses` becomes
   * `true, b + 1 falses, a - 1 trues` while the prefix stays.
   */
  lemma StepResult(m: seq<bool>, p: seq<bool>, a: nat, b: nat)
    requires a >= 1 && m == p + ([false] + Trues(a) + Falses(b))
    requires LastRise(m, |m|) == |p|
    ensures NextPermutation(m) == (true, p + ([true] + Falses(b + 1) + Trues(a - 1)))
  {
    AdvanceShape(p, a, b);
  }

  lemma AdvanceShape(p: seq<bool>, a: nat, b: nat)
    requires a >= 1
    ensures true in p + ([false] + Trues(a) + Falses(b))
    ensures Advance(p + ([false] + Trues(a) + Falses(b)), |p|) == p + ([true] + Falses(b + 1) + Trues(a - 1))
  {
    var m := p + ([false] + Trues(a) + Falses(b));
    var i := |p|;
    assert m[i + a];
    var j := LastTrue(m);
    assert j >= i + a;
    assert j <= i + a by {
      assert forall q :: i + a < q < |m| ==> !m[q];
    }
    var s := m[i := true][j := false];
    assert s[..i + 1] == p + [true];
    assert s[i + 1..] == Trues(a - 1) + Falses(b + 1);
    ReverseShape(a - 1, b + 1);
  }

  lemma TailCounts(a: nat, b: nat)
    requires a >= 1
    ensures Count([false] + Trues(a) + Falses(b)) == a
    ensures Count([true] + Falses(b + 1) + Trues(a - 1)) == a
  {
    assert ([false] + Trues(a) + Falses(b))[1..] == Trues(a) + Falses(b);
    assert ([true] + Falses(b + 1) + Trues(a - 1))[1..] == Falses(b + 1) + Trues(a - 1);
    CountAppend(Trues(a), Falses(b));
    CountAppend(Falses(b + 1), Trues(a - 1));
    CountTrues(a);
    CountTrues(a - 1);
    CountFalses(b);
    CountFalses(b + 1);
  }

  /** Permutation: a step keeps the length and the number of trues. */
  lemma NextPermutationKeeps(m: seq<bool>)
    ensures |NextPermutation(m).1| == |m|
    ensures Count(NextPermutation(m).1) == Count(m)
  {
    var i := LastRise(m, |m|);
    if i < 0 {
      NoLastRise(m);
      var c := NoRiseShape(m);
      ReverseShape(c, |m| - c);
      FirstMaskCount(|m|, c);
    } else {
      var p, a, b := SuffixShape(m, i);
      StepResult(m, p, a, b);
      var x := [false] + Trues(a) + Falses(b);
      var y := [true] + Falses(b + 1) + Trues(a - 1);
      CountAppend(p, x);
      CountAppend(p, y);
      TailCounts(a, b);
    }
  }

  /** Advancing steps move to a lexicographically greater mask. */
  lemma NextPermutationGreater(m: seq<bool>)
    ensures NextPermutation(m).0 ==> LexLessAt(m, NextPermutation(m).1, LastRise(m, |m|))
    ensures NextPermutation(m).0 ==> LexLess(m, NextPermutation(m).1)
  {
    var i := LastRise(m, |m|);
    if i >= 0 {
      var p, a, b := SuffixShape(m, i);
      StepResult(m, p, a, b);
      var x := [false] + Trues(a) + Falses(b);
      var y := [true] + Falses(b + 1) + Trues(a - 1);
      assert (p + x)[..i] == p == (p + y)[..i];
      assert (p + x)[i] == x[0] && (p + y)[i] == y[0];
      assert LexLessAt(m, NextPermutation(m).1, i);
    }
  }

  /** A step reports false exactly on the last mask: the one without a rise. */
  lemma NextPermutationWraps(m: seq<bool>)
    ensures !NextPermutation(m).0 <==> NoRise(m)
  {
    var i := LastRise(m, |m|);
    if i < 0 {
      NoLastRise(m);
    } else {
      assert Rise(m, i);
    }
  }

  /** After the last mask a step wraps around to the first mask with as many trues. */
  lemma NextPermutationRestarts(m: seq<bool>)
    ensures !NextPermutation(m).0 ==> NextPermutation(m).1 == FirstMask(|m|, Count(m))
  {
    var i := LastRise(m, |m|);
    if i < 0 {
      NoLastRise(m);
      var c := NoRiseShape(m);
      ReverseShape(c, |m| - c);
    }
  }

  // ------------------------------------------------------------ rank lemmas

  lemma {:induction false} BinomialBeyond(n: nat, k: nat)
    requires k > n
    ensures Binomial(n, k) == 0
  {
    if n > 0 {
      BinomialBeyond(n - 1, k - 1);
      BinomialBeyond(n - 1, k);
    }
  }

  lemma {:induction false} BinomialPositive(n: nat, k: nat)
    requires k <= n
    ensures Binomial(n, k) >= 1
  {
    if k > 0 {
      BinomialPositive(n - 1, k - 1);
    }
  }

  /** Only masks of equal length and count follow a shared prefix: the prefix adds the same rank. */
  lemma {:induction false} RankAppend(p: seq<bool>, x: seq<bool>, y: seq<bool>)
    requires |x| == |y| && Count(x) == Count(y)
    ensures Rank(p + x) - Rank(x) == Rank(p + y) - Rank(y)
    decreases |p|
  {
    if p != [] {
      assert (p + x)[0] == p[0] && (p + y)[0] == p[0];
      assert (p + x)[1..] == p[1..] + x;
      assert (p + y)[1..] == p[1..] + y;
      CountAppend(p, x);
      CountAppend(p, y);
      RankAppend(p[1..], x, y);
    } else {
      assert p + x == x && p + y == y;
    }
  }

  /** The first mask ranks 0. */
  lemma {:induction false} RankFirst(b: nat, a: nat)
    ensures Rank(Falses(b) + Trues(a)) == 0
    decreases b + a
  {
    var m := Falses(b) + Trues(a);
    if b > 0 {
      assert m[1..] == Falses(b - 1) + Trues(a);
      RankFirst(b - 1, a);
    } else if a > 0 {
      assert m == Trues(a);
      assert m[1..] == Falses(0) + Trues(a - 1);
      CountTrues(a);
      BinomialBeyond(a - 1, a);
      RankFirst(0, a - 1);
    }
  }

  /** The last mask ranks one below the number of masks. */
  lemma {:induction false} RankLast(a: nat, b: nat)
    ensures Rank(Trues(a) + Falses(b)) == Binomial(a + b, a) - 1
    decreases a
  {
    var m := Trues(a) + Falses(b);
    if a == 0 {
      assert m == Falses(b) + Trues(0);
      RankFirst(b, 0);
    } else {
      assert m[1..] == Trues(a - 1) + Falses(b);
      CountAppend(Trues(a), Falses(b));
      CountTrues(a);
      CountFalses(b);
      RankLast(a - 1, b);
      BinomialPositive(a - 1 + b, a - 1);
    }
  }

  /** Every mask ranks below the number of masks of its length and count. */
  lemma {:induction false} RankBound(m: seq<bool>)
    ensures Rank(m) < Binomial(|m|, Count(m))
  {
    if m == [] {
    } else {
      RankBound(m[1..]);
      if m[0] {
        assert Count(m[1..]) == Count(m) - 1;
      } else {
        assert Count(m[1..]) == Count(m);
      }
    }
  }

  /** An advancing step raises the rank by exactly one. */
  lemma NextPermutationRank(m: seq<bool>)
    ensures NextPermutation(m).0 ==> Rank(NextPermutation(m).1) == Rank(m) + 1
  {
    var i := LastRise(m, |m|);
    if i >= 0 {
      var p, a, b := SuffixShape(m, i);
      StepResult(m, p, a, b);
      var x := [false] + Trues(a) + Falses(b);
      var y := [true] + Falses(b + 1) + Trues(a - 1);
      TailCounts(a, b);
      RankAppend(p, x, y);
      StepRanks(a, b);
    }
  }

  /** The two runs an advancing step exchanges rank one apart. */
  lemma StepRanks(a: nat, b: nat)
    requires a >= 1
    ensures Rank([false] + Trues(a) + Falses(b)) == Binomial(a + b, a) - 1
    ensures Rank([true] + Falses(b + 1) + Trues(a - 1)) == Binomial(a + b, a)
  {
    var x := [false] + Trues(a) + Falses(b);
    var y := [true] + Falses(b + 1) + Trues(a - 1);
    assert x[1..] == Trues(a) + Falses(b);
    RankLast(a, b);
    assert y[1..] == Falses(b + 1) + Trues(a - 1);
    RankFirst(b + 1, a - 1);
    TailCounts(a, b);
  }

  /** A step advances exactly when the mask is not the last one. */
  lemma AdvancesBelowLast(m: seq<bool>)
    ensures NextPermutation(m).0 <==> Rank(m) + 1 < Binomial(|m|, Count(m))
  {
    NextPermutationWraps(m);
    NextPermutationRank(m);
    NextPermutationKeeps(m);
    if NoRise(m) {
      var c := NoRiseShape(m);
      RankLast(c, |m| - c);
    } else {
      RankBound(NextPermutation(m).1);
    }
  }

  // ------------------------------------------------------------ selection lemmas

  lemma {:induction false} SelectedFrom<T>(pool: seq<T>, m: seq<bool>, x: T)
    requires |pool| == |m| && x in Selected(pool, m)
    ensures x in pool
  {
    var n := |m| - 1;
    if m[n] && x == pool[n] {
    } else {
      SelectedFrom(pool[..n], m[..n], x);
    }
  }

  /** Over a pool of distinct elements, different masks select different combinations. */
  lemma {:induction false} SelectedInjective<T>(pool: seq<T>, m1: seq<bool>, m2: seq<bool>)
    requires Distinct(pool) && |pool| == |m1| == |m2|
    requires Selected(pool, m1) == Selected(pool, m2)
    ensures m1 == m2
  {
    if m1 != [] {
      var n := |m1| - 1;
      var p := pool[..n];
      SelectedSnoc(pool, m1);
      SelectedSnoc(pool, m2);
      DistinctInit(pool);
      if m1[n] && !m2[n] {
        LastIn(Selected(p, m1[..n]), Selected(p, m2[..n]), pool[n]);
        SelectedFrom(p, m2[..n], pool[n]);
        assert false;
      } else if !m1[n] && m2[n] {
        LastIn(Selected(p, m2[..n]), Selected(p, m1[..n]), pool[n]);
        SelectedFrom(p, m1[..n], pool[n]);
        assert false;
      } else {
        var s1, s2 := Selected(p, m1[..n]), Selected(p, m2[..n]);
        var t := if m1[n] then [pool[n]] else [];
        assert s1 == (s1 + t)[..|s1|] && s2 == (s2 + t)[..|s2|];
        SelectedInjective(p, m1[..n], m2[..n]);
        assert m1 == m1[..n] + [m1[n]] && m2 == m2[..n] + [m2[n]];
      }
    }
  }

  /** The selection of a mask is that of all but its last entry, then the last element if selected. */
  lemma SelectedSnoc<T>(pool: seq<T>, m: seq<bool>)
    requires |pool| == |m| && m != []
    ensures Selected(pool, m) ==
      Selected(pool[..|m| - 1], m[..|m| - 1]) + (if m[|m| - 1] then [pool[|m| - 1]] else [])
  {
  }

  /** A sequence equal to one ending in `x` contains `x`. */
  lemma LastIn<T>(a: seq<T>, b: seq<T>, x: T)
    requires a + [x] == b
    ensures x in b
  {
    assert b[|a|] == x;
  }

  /** Dropping the last element of a distinct sequence keeps it distinct, without that element. */
  lemma DistinctInit<T>(s: seq<T>)
    requires Distinct(s) && s != []
    ensures Distinct(s[..|s| - 1]) && s[|s| - 1] !in s[..|s| - 1]
  {
  }

  // ------------------------------------------------------------ clients

  /**
   * Draining a generator over a non-empty pool: `hasNext` is initially true
   * iff k <= n, and then exactly Binomial(n, k) combinations come out, each
   * of k elements and, over distinct elements, all different. The i-th one
   * is the selection, in pool order, of the k-element mask of rank i.
   */
  method AllCombinations<T>(pool: seq<T>, k: nat) returns (combos: seq<seq<T>>, ghost masks: seq<seq<bool>>)
    requires |pool| >= 1
    ensures k > |pool| ==> combos == []
    ensures k <= |pool| ==> |combos| == Binomial(|pool|, k)
    ensures forall c :: c in combos ==> |c| == k
    ensures Distinct(pool) ==> Distinct(combos)
    ensures Listed(pool, k, masks, combos)
  {
    var g := new CombinationGenerator(pool, k);
    combos := [];
    masks := [];
    ghost var total := Binomial(|pool|, k);
    while g.HasNext()
      invariant g.Valid() && g.pool == pool && g.ssize == k
      invariant g.bmap == [] <==> combos == []
      invariant combos == [] ==> g.HasNext() == (k <= |pool|)
      invariant g.bmap != [] ==> k <= |pool|
      invariant Listed(pool, k, masks, combos)
      invariant g.greater ==> Rank(g.bmap) == |combos| < total
      invariant combos != [] && !g.greater ==> |combos| == total
      decreases total - |combos|, if g.bmap == [] then 1 else 0
    {
      ghost var m := g.CurrentMask();
      if g.bmap == [] {
        FirstMaskCount(|pool|, k);
        RankFirst(|pool| - k, k);
        BinomialPositive(|pool|, k);
      }
      var c := g.Get();
      AdvancesBelowLast(m);
      NextPermutationRank(m);
      ListedSnoc(pool, k, masks, combos, m, c);
      masks := masks + [m];
      combos := combos + [c];
    }
    ListedSizes(pool, k, masks, combos);
    if Distinct(pool) {
      ListedDistinct(pool, k, masks, combos);
    }
  }

  /** `combos` lists the selections of `masks`, the masks of rank 0, 1, 2, ... that choose k of the pool. */
  ghost predicate Listed<T>(pool: seq<T>, k: nat, masks: seq<seq<bool>>, combos: seq<seq<T>>)
  {
    |masks| == |combos| &&
    forall i :: 0 <= i < |masks| ==>
      |masks[i]| == |pool| && Count(masks[i]) == k && Rank(masks[i]) == i &&
      combos[i] == Selected(pool, masks[i])
  }

  /** The next mask in rank order extends the listing. */
  lemma ListedSnoc<T>(pool: seq<T>, k: nat, masks: seq<seq<bool>>, combos: seq<seq<T>>, m: seq<bool>, c: seq<T>)
    requires Listed(pool, k, masks, combos)
    requires |m| == |pool| && Count(m) == k && Rank(m) == |masks| && c == Selected(pool, m)
    ensures Listed(pool, k, masks + [m], combos + [c])
  {
  }

  /** Every listed selection has k elements. */
  lemma ListedSizes<T>(pool: seq<T>, k: nat, masks: seq<seq<bool>>, combos: seq<seq<T>>)
    requires Listed(pool, k, masks, combos)
    ensures forall c :: c in combos ==> |c| == k
  {
    forall c | c in combos
      ensures |c| == k
    {
      var i :| 0 <= i < |combos| && combos[i] == c;
      assert |Selected(pool, masks[i])| == Count(masks[i]);
    }
  }

  /** Over distinct elements, the listed selections are all different: their masks have different ranks. */
  lemma ListedDistinct<T>(pool: seq<T>, k: nat, masks: seq<seq<bool>>, combos: seq<seq<T>>)
    requires Listed(pool, k, masks, combos) && Distinct(pool)
    ensures Distinct(combos)
  {
    forall i, j | 0 <= i < j < |combos|
      ensures combos[i] != combos[j]
    {
      if combos[i] == combos[j] {
        SelectedInjective(pool, masks[i], masks[j]);
        assert false;
      }
    }
  }

  /**
   * With an empty pool and k = 0 the mask is never built, so `hasNext` stays
   * true and every `get` returns the empty combination: the generator never ends.
   */
  method EmptyPoolNeverEnds<T>() returns (before: bool, c: seq<T>, after: bool)
    ensures before && c == [] && after
  {
    var g := new CombinationGenerator<T>([], 0);
    before := g.HasNext();
    c := g.Get();
    after := g.HasNext();
  }
}
