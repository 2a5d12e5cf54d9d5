/**
 * Sequences of entities looked up and de-duplicated by an integer key: the
 * `FirstOrDefault(x => x.Id == k)` lookups and the `Any(x => x.Id == k)`
 * guarded appends of the cache builder, stated once for every entity type.
 */
module Keyed {
  import opened Wrappers

  /** Some element of `cs` has key `k` (the source's `Any`). */
  predicate HasKey<C>(cs: seq<C>, k: int, key: C -> int) {
    exists i :: 0 <= i < |cs| && key(cs[i]) == k
  }

  /** The keys occurring in `cs`. */
  ghost function KeySet<C>(cs: seq<C>, key: C -> int): set<int> {
    set i | 0 <= i < |cs| :: key(cs[i])
  }

  /** No two elements of `cs` share a key. */
  ghost predicate DistinctKeys<C>(cs: seq<C>, key: C -> int) {
    forall i, j :: 0 <= i < j < |cs| ==> key(cs[i]) != key(cs[j])
  }

  /** The position of the first element with key `k`, or `|cs|` when no element has it. */
  function IndexOfKey<C>(cs: seq<C>, k: int, key: C -> int): (i: nat)
    ensures i <= |cs|
    ensures i < |cs| ==> key(cs[i]) == k
    ensures forall j :: 0 <= j < i ==> key(cs[j]) != k
  {
    if |cs| == 0 then 0
    else if key(cs[0]) == k then 0
    else
      var i := 1 + IndexOfKey(cs[1..], k, key);
      assert forall j :: 1 <= j < i ==> cs[j] == cs[1..][j - 1];
      i
  }

  /** The first element with key `k`, or None (the source's `FirstOrDefault`). */
  function Lookup<C>(cs: seq<C>, k: int, key: C -> int): (r: Option<C>)
    ensures r.None? <==> !HasKey(cs, k, key)
    ensures r.Some? ==> key(r.value) == k
    ensures r.Some? ==> exists i :: 0 <= i < |cs| && cs[i] == r.value && forall j :: 0 <= j < i ==> key(cs[j]) != k
  {
    var i := IndexOfKey(cs, k, key);
    if i < |cs| then Some(cs[i]) else None
  }

  /** Appends `c` unless an element with the same key is already present. */
  function AddIfAbsent<C>(cs: seq<C>, c: C, key: C -> int): seq<C> {
    if HasKey(cs, key(c), key) then cs else cs + [c]
  }

  /** Folds `AddIfAbsent` over `xs` from left to right: one element per key, the first one seen. */
  function Dedup<C>(xs: seq<C>, key: C -> int): seq<C> {
    if |xs| == 0 then [] else AddIfAbsent(Dedup(xs[..|xs| - 1], key), xs[|xs| - 1], key)
  }

  /**
   * `out` holds, for each key of `xs`, exactly one element: the first element
   * of `xs` carrying that key; and the elements appear in the order in which
   * their keys are first seen in `xs`.
   */
  ghost predicate FirstSeen<C>(out: seq<C>, xs: seq<C>, key: C -> int) {
    && DistinctKeys(out, key)
    && KeySet(out, key) == KeySet(xs, key)
    && (forall m :: 0 <= m < |out| ==> HasKey(xs, key(out[m]), key) && out[m] == xs[IndexOfKey(xs, key(out[m]), key)])
    && (forall m, n :: 0 <= m < n < |out| ==> IndexOfKey(xs, key(out[m]), key) < IndexOfKey(xs, key(out[n]), key))
  }

  lemma IndexOfKeyUnique<C>(cs: seq<C>, k: int, key: C -> int, i: nat)
    requires i <= |cs|
    requires i < |cs| ==> key(cs[i]) == k
    requires forall j :: 0 <= j < i ==> key(cs[j]) != k
    ensures IndexOfKey(cs, k, key) == i
  {
  }

  lemma IndexOfKeySnoc<C>(p: seq<C>, x: C, k: int, key: C -> int)
    ensures HasKey(p, k, key) ==> IndexOfKey(p + [x], k, key) == IndexOfKey(p, k, key)
    ensures !HasKey(p, k, key) && key(x) == k ==> IndexOfKey(p + [x], k, key) == |p|
  {
    var xs := p + [x];
    var i := IndexOfKey(p, k, key);
    assert forall j :: 0 <= j < |p| ==> xs[j] == p[j];
    if HasKey(p, k, key) {
      IndexOfKeyUnique(xs, k, key, i);
    } else if key(x) == k {
      IndexOfKeyUnique(xs, k, key, |p|);
    }
  }

  lemma KeySetHasKey<C>(cs: seq<C>, k: int, key: C -> int)
    ensures k in KeySet(cs, key) <==> HasKey(cs, k, key)
  {
  }

  lemma KeySetSnoc<C>(p: seq<C>, x: C, key: C -> int)
    ensures KeySet(p + [x], key) == KeySet(p, key) + {key(x)}
  {
    var xs := p + [x];
    assert forall j :: 0 <= j < |p| ==> xs[j] == p[j];
    assert xs[|p|] == x;
  }

  lemma DedupSnoc<C>(xs: seq<C>, x: C, key: C -> int)
    ensures Dedup(xs + [x], key) == AddIfAbsent(Dedup(xs, key), x, key)
  {
    assert (xs + [x])[..|xs|] == xs;
  }

  /** The fold keeps exactly the first element of each key, in first-seen order. */
  lemma {:induction false} DedupFirstSeen<C>(xs: seq<C>, key: C -> int)
    ensures FirstSeen(Dedup(xs, key), xs, key)
  {
    if |xs| > 0 {
      var p, x := xs[..|xs| - 1], xs[|xs| - 1];
      assert xs == p + [x];
      DedupFirstSeen(p, key);
      var d := Dedup(p, key);
      var out := Dedup(xs, key);
      DedupSnoc(p, x, key);
      KeySetSnoc(p, x, key);
      KeySetHasKey(d, key(x), key);
      KeySetHasKey(p, key(x), key);
      forall m | 0 <= m < |d|
        ensures HasKey(p, key(d[m]), key) && HasKey(xs, key(d[m]), key)
        ensures IndexOfKey(xs, key(d[m]), key) == IndexOfKey(p, key(d[m]), key)
      {
        assert xs[IndexOfKey(p, key(d[m]), key)] == d[m];
        IndexOfKeySnoc(p, x, key(d[m]), key);
      }
      if !HasKey(d, key(x), key) {
        assert out == d + [x];
        KeySetSnoc(d, x, key);
        IndexOfKeySnoc(p, x, key(x), key);
        assert HasKey(xs, key(x), key) by { assert xs[|p|] == x; }
        forall m | 0 <= m < |d| ensures IndexOfKey(xs, key(d[m]), key) < |p| {
        }
      }
    }
  }

  lemma DedupDistinct<C>(xs: seq<C>, key: C -> int)
    ensures DistinctKeys(Dedup(xs, key), key)
  {
    DedupFirstSeen(xs, key);
  }

  lemma DedupKeys<C>(xs: seq<C>, key: C -> int)
    ensures KeySet(Dedup(xs, key), key) == KeySet(xs, key)
  {
    DedupFirstSeen(xs, key);
  }

  /** A sequence whose keys are already distinct is its own de-duplication. */
  lemma {:induction false} DedupOfDistinct<C>(xs: seq<C>, key: C -> int)
    requires DistinctKeys(xs, key)
    ensures Dedup(xs, key) == xs
  {
    if |xs| > 0 {
      var p, x := xs[..|xs| - 1], xs[|xs| - 1];
      assert xs == p + [x];
      DedupOfDistinct(p, key);
      DedupSnoc(p, x, key);
      assert !HasKey(p, key(x), key);
    }
  }

  /** Re-adding an element whose key is already present changes nothing. */
  lemma DedupAbsorbs<C>(xs: seq<C>, x: C, key: C -> int)
    requires HasKey(xs, key(x), key)
    ensures Dedup(xs + [x], key) == Dedup(xs, key)
  {
    DedupSnoc(xs, x, key);
    DedupFirstSeen(xs, key);
    KeySetHasKey(xs, key(x), key);
    KeySetHasKey(Dedup(xs, key), key(x), key);
  }

  /** A sequence with distinct keys has as many elements as keys. */
  lemma {:induction false} DistinctKeysLength<C>(cs: seq<C>, key: C -> int)
    requires DistinctKeys(cs, key)
    ensures |cs| == |KeySet(cs, key)|
  {
    if |cs| > 0 {
      var p, x := cs[..|cs| - 1], cs[|cs| - 1];
      assert cs == p + [x];
      DistinctKeysLength(p, key);
      KeySetSnoc(p, x, key);
      KeySetHasKey(p, key(x), key);
    }
  }

  /** With distinct keys, the lookup finds an element exactly when it is present with that key. */
  lemma LookupDistinct<C>(cs: seq<C>, k: int, key: C -> int, c: C)
    requires DistinctKeys(cs, key)
    ensures Lookup(cs, k, key) == Some(c) <==> c in cs && key(c) == k
  {
    if c in cs && key(c) == k {
      var i :| 0 <= i < |cs| && cs[i] == c;
      IndexOfKeyUnique(cs, k, key, i);
    }
  }
}
