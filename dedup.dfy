/**
 * The de-duplication filter the application writes twice (menu building and the settings
 * page): `const seen = new Set(); xs.filter(x => { const k = key(x); if (seen.has(k))
 * return false; seen.add(k); return true })`. The first element with a given key string
 * wins and the survivors keep their relative order.
 */
module Dedup {
  import opened Wrappers

  /** The filter run with `seen` already holding some keys. */
  function DedupFrom<T>(xs: seq<T>, key: T -> string, seen: set<string>): (r: seq<T>)
    ensures |r| <= |xs|
    ensures forall i :: 0 <= i < |r| ==> key(r[i]) !in seen
    ensures forall i, j :: 0 <= i < j < |r| ==> key(r[i]) != key(r[j])
  {
    if xs == [] then []
    else if key(xs[0]) in seen then DedupFrom(xs[1..], key, seen)
    else [xs[0]] + DedupFrom(xs[1..], key, seen + {key(xs[0])})
  }

  /** The filter as the application runs it, starting from an empty `seen` set. */
  function Dedup<T>(xs: seq<T>, key: T -> string): seq<T>
  {
    DedupFrom(xs, key, {})
  }

  /** `a` is `b` with some elements dropped, order kept. */
  predicate IsSubsequence<T(==)>(a: seq<T>, b: seq<T>)
    decreases |b|
  {
    a == [] || (b != [] && ((a[0] == b[0] && IsSubsequence(a[1..], b[1..])) || IsSubsequence(a, b[1..])))
  }

  /** The first element of `xs` whose key is `k`. */
  function FirstWithKey<T>(xs: seq<T>, key: T -> string, k: string): Option<T>
  {
    if xs == [] then None
    else if key(xs[0]) == k then Some(xs[0])
    else FirstWithKey(xs[1..], key, k)
  }

  function KeySet<T>(xs: seq<T>, key: T -> string): set<string>
  {
    set i | 0 <= i < |xs| :: key(xs[i])
  }

  predicate DistinctKeys<T>(xs: seq<T>, key: T -> string)
  {
    forall i, j :: 0 <= i < j < |xs| ==> key(xs[i]) != key(xs[j])
  }

  lemma {:induction false} DedupIsSubsequence<T>(xs: seq<T>, key: T -> string, seen: set<string>)
    ensures IsSubsequence(DedupFrom(xs, key, seen), xs)
    decreases |xs|
  {
    if xs != [] {
      var r := DedupFrom(xs, key, seen);
      if key(xs[0]) in seen {
        DedupIsSubsequence(xs[1..], key, seen);
      } else {
        DedupIsSubsequence(xs[1..], key, seen + {key(xs[0])});
        assert r[0] == xs[0] && r[1..] == DedupFrom(xs[1..], key, seen + {key(xs[0])});
      }
    }
  }

  /** Every survivor is the first element of the input carrying its key. */
  lemma {:induction false} DedupKeepsFirst<T>(xs: seq<T>, key: T -> string, seen: set<string>)
    ensures forall i :: 0 <= i < |DedupFrom(xs, key, seen)| ==>
      FirstWithKey(xs, key, key(DedupFrom(xs, key, seen)[i])) == Some(DedupFrom(xs, key, seen)[i])
    decreases |xs|
  {
    if xs != [] {
      var r := DedupFrom(xs, key, seen);
      var k0 := key(xs[0]);
      if k0 in seen {
        DedupKeepsFirst(xs[1..], key, seen);
      } else {
        var rest := DedupFrom(xs[1..], key, seen + {k0});
        DedupKeepsFirst(xs[1..], key, seen + {k0});
        forall i | 0 <= i < |r| ensures FirstWithKey(xs, key, key(r[i])) == Some(r[i]) {
          if i > 0 {
            assert r[i] == rest[i - 1];
          }
        }
      }
    }
  }

  /** The keys of a list with one more element in front. */
  lemma KeySetCons<T>(x: T, ys: seq<T>, key: T -> string)
    ensures KeySet([x] + ys, key) == {key(x)} + KeySet(ys, key)
  {
    var r := [x] + ys;
    forall k | k in KeySet(r, key) ensures k in {key(x)} + KeySet(ys, key) {
      var i :| 0 <= i < |r| && key(r[i]) == k;
      if i > 0 { assert r[i] == ys[i - 1]; }
    }
    forall k | k in KeySet(ys, key) ensures k in KeySet(r, key) {
      var i :| 0 <= i < |ys| && key(ys[i]) == k;
      assert r[i + 1] == ys[i];
    }
    assert key(r[0]) == key(x);
  }

  /** Exactly the keys of the input not already seen survive. */
  lemma {:induction false} DedupKeySet<T>(xs: seq<T>, key: T -> string, seen: set<string>)
    ensures KeySet(DedupFrom(xs, key, seen), key) == KeySet(xs, key) - seen
    decreases |xs|
  {
    if xs != [] {
      var k0 := key(xs[0]);
      assert xs == [xs[0]] + xs[1..];
      KeySetCons(xs[0], xs[1..], key);
      if k0 in seen {
        DedupKeySet(xs[1..], key, seen);
      } else {
        var rest := DedupFrom(xs[1..], key, seen + {k0});
        DedupKeySet(xs[1..], key, seen + {k0});
        KeySetCons(xs[0], rest, key);
      }
    }
  }

  /** A list whose keys are distinct and unseen passes the filter unchanged. */
  lemma {:induction false} DedupOfDistinct<T>(xs: seq<T>, key: T -> string, seen: set<string>)
    requires DistinctKeys(xs, key)
    requires forall i :: 0 <= i < |xs| ==> key(xs[i]) !in seen
    ensures DedupFrom(xs, key, seen) == xs
    decreases |xs|
  {
    if xs != [] {
      var k0 := key(xs[0]);
      forall i | 0 <= i < |xs[1..]| ensures key(xs[1..][i]) !in seen + {k0} {
        assert xs[1..][i] == xs[i + 1];
      }
      DedupOfDistinct(xs[1..], key, seen + {k0});
      assert xs == [xs[0]] + xs[1..];
    }
  }

  /** De-duplicating twice is the same as de-duplicating once. */
  lemma DedupIdempotent<T>(xs: seq<T>, key: T -> string)
    ensures Dedup(Dedup(xs, key), key) == Dedup(xs, key)
  {
    DedupOfDistinct(Dedup(xs, key), key, {});
  }
}
