/**
 * RandomGenerator (include/wirecc/wirecc.h:160-198): draws the keys of a map
 * at random without replacement. `get` refills its working list from the map
 * whenever the list is empty, then removes and returns the element at
 * position `rand() % size`; `reset` empties the list so the next `get` starts
 * over from the whole map.
 *
 * The map is represented by its keys in iteration order (`pool`), and the
 * value of `rand()` is a parameter of `get`.
 */
module Sampling {

  class RandomGenerator<K> {
    /** The map's keys, in the order its iterator visits them. */
    const pool: seq<K>
    /** The keys not yet drawn in the current pass. */
    var elems: seq<K>

    /** Every key still to draw is a key of the map, at most as often as it occurs there. */
    ghost predicate Valid()
      reads this
    {
      multiset(elems) <= multiset(pool)
    }

    constructor (pool: seq<K>)
      ensures this.pool == pool && elems == []
      ensures Valid()
    {
      this.pool := pool;
      elems := [];
    }

    /** reset: the next `get` starts a new pass over the whole map. */
    method Reset()
      modifies this
      ensures elems == []
      ensures Valid()
    {
      elems := [];
    }

    /** The list `get` draws from: the whole map when the pass is over. */
    function Source(): seq<K>
      reads this
    {
      if elems == [] then pool else elems
    }

    /**
     * get with `rand()` returning `r`: refill from the map if the list is
     * empty (the map must then be non-empty), then remove and return the
     * element at `r % size`.
     */
    method Get(r: nat) returns (key: K)
      requires Valid()
      requires elems != [] || pool != []
      modifies this
      ensures Valid()
      ensures var src := old(Source()); var i := r % |src|;
        key == src[i] && elems == src[..i] + src[i + 1..]
      ensures multiset(elems) + multiset{key} == multiset(old(Source()))
      ensures key in pool
    {
      if elems == [] {
        var filled: seq<K> := [];
        for i := 0 to |pool|
          invariant filled == pool[..i]
        {
          filled := filled + [pool[i]];
        }
        assert filled == pool;
        elems := filled;
      }
      var i := r % |elems|;
      key := elems[i];
      Drawn(elems, pool, i);
      RemoveAt(elems, i);
      elems := elems[..i] + elems[i + 1..];
    }
  }

  /** An element of a sub-multiset of the pool is a pool key. */
  lemma Drawn<K>(s: seq<K>, pool: seq<K>, i: nat)
    requires i < |s| && multiset(s) <= multiset(pool)
    ensures s[i] in pool
  {
    assert s[i] in multiset(s);
  }

  /** Erasing position i takes exactly that one element out of the multiset. */
  lemma RemoveAt<K>(s: seq<K>, i: nat)
    requires i < |s|
    ensures multiset(s[..i] + s[i + 1..]) + multiset{s[i]} == multiset(s)
  {
    assert s == s[..i] + [s[i]] + s[i + 1..];
  }

  /**
   * One full pass: as many draws as the map has keys return every key
   * exactly as often as it occurs, whatever `rand()` returns, and leave the
   * pass finished, so the next draw starts over.
   */
  method DrawAll<K>(pool: seq<K>, rs: seq<nat>) returns (drawn: seq<K>, finished: bool)
    requires |pool| >= 1 && |rs| == |pool|
    ensures multiset(drawn) == multiset(pool)
    ensures finished
  {
    var g := new RandomGenerator(pool);
    drawn := [];
    for i := 0 to |rs|
      invariant g.pool == pool && g.Valid()
      invariant i == 0 ==> g.elems == [] && drawn == []
      invariant i > 0 ==> multiset(drawn) + multiset(g.elems) == multiset(pool)
      invariant i > 0 ==> |g.elems| == |pool| - i
    {
      ghost var source := g.Source();
      var key := g.Get(rs[i]);
      DrawStep(pool, drawn, source, key, g.elems);
      drawn := drawn + [key];
    }
    finished := g.elems == [];
  }

  /** One more draw moves one key from what is left to what was drawn. */
  lemma DrawStep<K>(pool: seq<K>, drawn: seq<K>, before: seq<K>, key: K, after: seq<K>)
    requires multiset(drawn) + multiset(before) == multiset(pool)
    requires multiset(after) + multiset{key} == multiset(before)
    ensures multiset(drawn + [key]) + multiset(after) == multiset(pool)
  {
  }

  /** A pass cut short by `reset` starts over from the whole map. */
  method ResetStartsOver<K>(pool: seq<K>, r1: nat, r2: nat) returns (first: K, second: K)
    requires |pool| >= 1
    ensures first == pool[r1 % |pool|]
    ensures second == pool[r2 % |pool|]
  {
    var g := new RandomGenerator(pool);
    first := g.Get(r1);
    g.Reset();
    second := g.Get(r2);
  }

  /** Two draws from a two-key map return both keys, the first chosen by `rand()`. */
  method TwoDraws<K>(x: K, y: K, r1: nat, r2: nat) returns (first: K, second: K)
    ensures first == (if r1 % 2 == 0 then x else y)
    ensures second == (if r1 % 2 == 0 then y else x)
  {
    var g := new RandomGenerator([x, y]);
    first := g.Get(r1);
    second := g.Get(r2);
  }
}
