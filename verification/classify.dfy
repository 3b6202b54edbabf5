/**
 * Name-keyed classification: LINQ's `Except` and `Intersect` over entity
 * sequences, keyed either by a name comparer or, after `Select(x => x.Name.Content)`,
 * by the name strings themselves.
 *
 * Both operators work as .NET implements them: a hash set is built from the
 * keys of the second sequence, then the first sequence is walked in order.
 * `Except` yields an element when adding its key to the set succeeds (the key
 * is neither in the second sequence nor already yielded); `Intersect` yields
 * an element when removing its key from the set succeeds.
 */
module Classify {

  /** The key of a name string is the string itself. */
  function Identity(s: string): string { s }

  /** The keys of the entries of `a`, as a set. */
  function KeySet<T>(a: seq<T>, key: T -> string): set<string>
  {
    set i | 0 <= i < |a| :: key(a[i])
  }

  /** `a.Select(key)`: the keys of the entries of `a`, in order. */
  function Keys<T>(a: seq<T>, key: T -> string): (r: seq<string>)
    ensures |r| == |a|
  {
    seq(|a|, i requires 0 <= i < |a| => key(a[i]))
  }

  /** Selecting over one more entry appends its key. */
  lemma KeysSnoc<T>(a: seq<T>, x: T, key: T -> string)
    ensures Keys(a + [x], key) == Keys(a, key) + [key(x)]
  {
    assert forall i :: 0 <= i < |a| ==> (a + [x])[i] == a[i];
  }

  /** No two entries of `r` share a key. */
  ghost predicate DistinctKeys<T>(r: seq<T>, key: T -> string)
  {
    forall i, j :: 0 <= i < j < |r| ==> key(r[i]) != key(r[j])
  }

  /** The position of the first entry of `a` whose key is `k`. */
  function FirstIndex<T>(a: seq<T>, k: string, key: T -> string): (i: nat)
    requires k in KeySet(a, key)
    ensures i < |a| && key(a[i]) == k
    ensures forall j :: 0 <= j < i ==> key(a[j]) != k
    decreases |a|
  {
    if key(a[0]) == k then 0
    else
      assert k in KeySet(a[1..], key) by {
        var i :| 0 <= i < |a| && key(a[i]) == k;
        assert a[1..][i - 1] == a[i];
      }
      1 + FirstIndex(a[1..], k, key)
  }

  /** `b.First(t => key(t) == k)`: the earliest entry of `b` whose key is `k`. */
  function First<T>(b: seq<T>, k: string, key: T -> string): (t: T)
    requires k in KeySet(b, key)
    ensures key(t) == k
  {
    b[FirstIndex(b, k, key)]
  }

  /**
   * Every entry of `r` is the first entry of `a` with its key, and the entries
   * of `r` come in the order in which their keys first occur in `a`.
   */
  ghost predicate InFirstOccurrenceOrder<T>(r: seq<T>, a: seq<T>, key: T -> string)
  {
    && (forall i :: 0 <= i < |r| ==> key(r[i]) in KeySet(a, key) && r[i] == a[FirstIndex(a, key(r[i]), key)])
    && (forall i, j :: 0 <= i < j < |r| ==>
          key(r[i]) in KeySet(a, key) && key(r[j]) in KeySet(a, key)
          && FirstIndex(a, key(r[i]), key) < FirstIndex(a, key(r[j]), key))
  }

  /** The walk of `Except` over `a`, with `seen` the keys the hash set already holds. */
  function ExceptWalk<T>(a: seq<T>, seen: set<string>, key: T -> string): seq<T>
    decreases |a|
  {
    if a == [] then []
    else if key(a[0]) in seen then ExceptWalk(a[1..], seen, key)
    else [a[0]] + ExceptWalk(a[1..], seen + {key(a[0])}, key)
  }

  /** `a.Except(b, comparer)` for a comparer that equates entries with equal keys. */
  function Except<T>(a: seq<T>, b: seq<T>, key: T -> string): seq<T>
  {
    ExceptWalk(a, KeySet(b, key), key)
  }

  /** The walk of `Intersect` over `a`, with `remaining` the keys the hash set still holds. */
  function IntersectWalk<T>(a: seq<T>, remaining: set<string>, key: T -> string): seq<T>
    decreases |a|
  {
    if a == [] then []
    else if key(a[0]) in remaining then [a[0]] + IntersectWalk(a[1..], remaining - {key(a[0])}, key)
    else IntersectWalk(a[1..], remaining, key)
  }

  /** `a.Intersect(b, comparer)` for a comparer that equates entries with equal keys. */
  function Intersect<T>(a: seq<T>, b: seq<T>, key: T -> string): seq<T>
  {
    IntersectWalk(a, KeySet(b, key), key)
  }

  lemma KeySetCons<T>(a: seq<T>, key: T -> string)
    requires a != []
    ensures KeySet(a, key) == {key(a[0])} + KeySet(a[1..], key)
  {
    forall k | k in KeySet(a, key)
      ensures k in {key(a[0])} + KeySet(a[1..], key)
    {
      var i :| 0 <= i < |a| && key(a[i]) == k;
      if i > 0 {
        assert a[1..][i - 1] == a[i];
      }
    }
    forall k | k in KeySet(a[1..], key)
      ensures k in KeySet(a, key)
    {
      var i :| 0 <= i < |a[1..]| && key(a[1..][i]) == k;
      assert a[i + 1] == a[1..][i];
    }
  }

  /**
   * An ordering with respect to the tail of `a` that avoids the key of `a[0]`
   * carries over to `a`, with or without `a[0]` in front.
   */
  lemma OrderCons<T>(r: seq<T>, a: seq<T>, key: T -> string)
    requires a != []
    requires InFirstOccurrenceOrder(r, a[1..], key)
    requires forall i :: 0 <= i < |r| ==> key(r[i]) != key(a[0])
    ensures InFirstOccurrenceOrder(r, a, key)
    ensures InFirstOccurrenceOrder([a[0]] + r, a, key)
  {
    KeySetCons(a, key);
    forall i | 0 <= i < |r|
      ensures key(r[i]) in KeySet(a, key)
      ensures FirstIndex(a, key(r[i]), key) == 1 + FirstIndex(a[1..], key(r[i]), key)
    {
    }
    var r' := [a[0]] + r;
    forall i | 0 <= i < |r'|
      ensures key(r'[i]) in KeySet(a, key) && r'[i] == a[FirstIndex(a, key(r'[i]), key)]
    {
      if i > 0 {
        assert r'[i] == r[i - 1];
      }
    }
    forall i, j | 0 <= i < j < |r'|
      ensures key(r'[i]) in KeySet(a, key) && key(r'[j]) in KeySet(a, key)
              && FirstIndex(a, key(r'[i]), key) < FirstIndex(a, key(r'[j]), key)
    {
      assert r'[j] == r[j - 1];
      if i > 0 {
        assert r'[i] == r[i - 1];
      }
    }
  }

  lemma {:induction false} ExceptWalkSpec<T>(a: seq<T>, seen: set<string>, key: T -> string)
    ensures KeySet(ExceptWalk(a, seen, key), key) == KeySet(a, key) - seen
    ensures InFirstOccurrenceOrder(ExceptWalk(a, seen, key), a, key)
    decreases |a|
  {
    if a != [] {
      var k := key(a[0]);
      KeySetCons(a, key);
      if k in seen {
        var r := ExceptWalk(a[1..], seen, key);
        ExceptWalkSpec(a[1..], seen, key);
        forall i | 0 <= i < |r| ensures key(r[i]) != k {
          assert key(r[i]) in KeySet(r, key);
        }
        OrderCons(r, a, key);
      } else {
        var r := ExceptWalk(a[1..], seen + {k}, key);
        ExceptWalkSpec(a[1..], seen + {k}, key);
        forall i | 0 <= i < |r| ensures key(r[i]) != k {
          assert key(r[i]) in KeySet(r, key);
        }
        OrderCons(r, a, key);
        KeySetCons([a[0]] + r, key);
        assert ([a[0]] + r)[1..] == r;
      }
    }
  }

  lemma {:induction false} IntersectWalkSpec<T>(a: seq<T>, remaining: set<string>, key: T -> string)
    ensures KeySet(IntersectWalk(a, remaining, key), key) == KeySet(a, key) * remaining
    ensures InFirstOccurrenceOrder(IntersectWalk(a, remaining, key), a, key)
    decreases |a|
  {
    if a != [] {
      var k := key(a[0]);
      KeySetCons(a, key);
      if k in remaining {
        var r := IntersectWalk(a[1..], remaining - {k}, key);
        IntersectWalkSpec(a[1..], remaining - {k}, key);
        forall i | 0 <= i < |r| ensures key(r[i]) != k {
          assert key(r[i]) in KeySet(r, key);
        }
        OrderCons(r, a, key);
        KeySetCons([a[0]] + r, key);
        assert ([a[0]] + r)[1..] == r;
      } else {
        var r := IntersectWalk(a[1..], remaining, key);
        IntersectWalkSpec(a[1..], remaining, key);
        forall i | 0 <= i < |r| ensures key(r[i]) != k {
          assert key(r[i]) in KeySet(r, key);
        }
        OrderCons(r, a, key);
      }
    }
  }

  /** Entries in first-occurrence order have pairwise different keys. */
  lemma OrderedIsDistinct<T>(r: seq<T>, a: seq<T>, key: T -> string)
    requires InFirstOccurrenceOrder(r, a, key)
    ensures DistinctKeys(r, key)
  {
  }

  /**
   * `Except` yields exactly the keys of `a` that are not keys of `b`, each
   * once, as the first entry of `a` with that key, in first-occurrence order.
   */
  lemma ExceptSpec<T>(a: seq<T>, b: seq<T>, key: T -> string)
    ensures KeySet(Except(a, b, key), key) == KeySet(a, key) - KeySet(b, key)
    ensures InFirstOccurrenceOrder(Except(a, b, key), a, key)
    ensures DistinctKeys(Except(a, b, key), key)
  {
    ExceptWalkSpec(a, KeySet(b, key), key);
  }

  /**
   * `Intersect` yields exactly the keys present in both `a` and `b`, each
   * once, as the first entry of `a` with that key, in first-occurrence order.
   */
  lemma IntersectSpec<T>(a: seq<T>, b: seq<T>, key: T -> string)
    ensures KeySet(Intersect(a, b, key), key) == KeySet(a, key) * KeySet(b, key)
    ensures InFirstOccurrenceOrder(Intersect(a, b, key), a, key)
    ensures DistinctKeys(Intersect(a, b, key), key)
  {
    IntersectWalkSpec(a, KeySet(b, key), key);
  }

  /**
   * The added and common entries split the distinct keys of the name side:
   * they share no key and together hold every key of `a`.
   */
  lemma AddedAndCommonPartition<T>(a: seq<T>, b: seq<T>, key: T -> string)
    ensures KeySet(Except(a, b, key), key) !! KeySet(Intersect(a, b, key), key)
    ensures KeySet(Except(a, b, key), key) + KeySet(Intersect(a, b, key), key) == KeySet(a, key)
  {
    ExceptSpec(a, b, key);
    IntersectSpec(a, b, key);
  }

  /** Every common entry has a partner on the reference side, so `First` cannot throw. */
  lemma CommonHasPartner<T>(a: seq<T>, b: seq<T>, key: T -> string)
    ensures forall i :: 0 <= i < |Intersect(a, b, key)| ==> key(Intersect(a, b, key)[i]) in KeySet(b, key)
  {
    var r := Intersect(a, b, key);
    IntersectSpec(a, b, key);
    forall i | 0 <= i < |r| ensures key(r[i]) in KeySet(b, key) {
      assert key(r[i]) in KeySet(r, key);
    }
  }

  lemma EmptyKeySetMeansEmpty<T>(r: seq<T>, key: T -> string)
    ensures KeySet(r, key) == {} ==> r == []
  {
    if r != [] {
      assert key(r[0]) in KeySet(r, key);
    }
  }

  /** Classifying a sequence against itself adds (and so removes) nothing. */
  lemma ExceptSelfIsEmpty<T>(a: seq<T>, key: T -> string)
    ensures Except(a, a, key) == []
  {
    var r := Except(a, a, key);
    ExceptSpec(a, a, key);
    EmptyKeySetMeansEmpty(r, key);
  }

  /** Removed entries are the added entries with the roles of the two sides swapped. */
  lemma AddedIsMirroredRemoved<T>(a: seq<T>, b: seq<T>, key: T -> string)
    ensures KeySet(Except(b, a, key), key) == KeySet(b, key) - KeySet(a, key)
    ensures KeySet(Except(a, b, key), key) !! KeySet(Except(b, a, key), key)
  {
    ExceptSpec(a, b, key);
    ExceptSpec(b, a, key);
  }

  lemma KeySetOfKeys<T>(a: seq<T>, key: T -> string)
    ensures KeySet(Keys(a, key), Identity) == KeySet(a, key)
  {
    var ks := Keys(a, key);
    forall k | k in KeySet(a, key) ensures k in KeySet(ks, Identity) {
      var i :| 0 <= i < |a| && key(a[i]) == k;
      assert Identity(ks[i]) == k;
    }
  }

  lemma {:induction false} ExceptWalkKeys<T>(a: seq<T>, seen: set<string>, key: T -> string)
    ensures Keys(ExceptWalk(a, seen, key), key) == ExceptWalk(Keys(a, key), seen, Identity)
    decreases |a|
  {
    var ks := Keys(a, key);
    if a != [] {
      assert ks[0] == key(a[0]);
      assert ks[1..] == Keys(a[1..], key);
      var k := key(a[0]);
      if k in seen {
        ExceptWalkKeys(a[1..], seen, key);
      } else {
        ExceptWalkKeys(a[1..], seen + {k}, key);
        var r := ExceptWalk(a[1..], seen + {k}, key);
        assert Keys([a[0]] + r, key) == [k] + Keys(r, key);
      }
    }
  }

  lemma {:induction false} IntersectWalkKeys<T>(a: seq<T>, remaining: set<string>, key: T -> string)
    ensures Keys(IntersectWalk(a, remaining, key), key) == IntersectWalk(Keys(a, key), remaining, Identity)
    decreases |a|
  {
    var ks := Keys(a, key);
    if a != [] {
      assert ks[0] == key(a[0]);
      assert ks[1..] == Keys(a[1..], key);
      var k := key(a[0]);
      if k in remaining {
        IntersectWalkKeys(a[1..], remaining - {k}, key);
        var r := IntersectWalk(a[1..], remaining - {k}, key);
        assert Keys([a[0]] + r, key) == [k] + Keys(r, key);
      } else {
        IntersectWalkKeys(a[1..], remaining, key);
      }
    }
  }

  /**
   * Classifying entities with a name comparer and then taking names gives the
   * same sequence as classifying the name strings.
   */
  lemma ClassifyByComparerIsByName<T>(a: seq<T>, b: seq<T>, key: T -> string)
    ensures Keys(Except(a, b, key), key) == Except(Keys(a, key), Keys(b, key), Identity)
    ensures Keys(Intersect(a, b, key), key) == Intersect(Keys(a, key), Keys(b, key), Identity)
  {
    KeySetOfKeys(b, key);
    ExceptWalkKeys(a, KeySet(b, key), key);
    IntersectWalkKeys(a, KeySet(b, key), key);
  }
}
