/** Order-preserving selection over sequences: the shape of every engine
    loop that walks a table, skips some entries and appends an image of each
    remaining one. */
module Sequences {

  /** The images under f of the elements of s that satisfy keep, in order.
      Defined from the back, as the engine loops build it. */
  function FilterMap<E, F>(s: seq<E>, keep: E -> bool, f: E -> F): (r: seq<F>)
    ensures |r| <= |s|
  {
    if s == [] then []
    else FilterMap(s[..|s| - 1], keep, f) + (if keep(s[|s| - 1]) then [f(s[|s| - 1])] else [])
  }

  /** The positions of s that satisfy keep, in increasing order. */
  function KeptIndices<E>(s: seq<E>, keep: E -> bool): (r: seq<nat>)
    ensures |r| <= |s|
  {
    if s == [] then []
    else KeptIndices(s[..|s| - 1], keep) + (if keep(s[|s| - 1]) then [|s| - 1] else [])
  }

  predicate Increasing(k: seq<nat>)
  {
    forall a, b :: 0 <= a < b < |k| ==> k[a] < k[b]
  }

  /** Appending one element to the walked prefix appends at most one image. */
  lemma FilterMapStep<E, F>(s: seq<E>, i: nat, keep: E -> bool, f: E -> F)
    requires i < |s|
    ensures FilterMap(s[..i + 1], keep, f)
         == FilterMap(s[..i], keep, f) + (if keep(s[i]) then [f(s[i])] else [])
  {
    assert s[..i + 1][..i] == s[..i];
  }

  lemma {:induction false} KeptIndicesBounded<E>(s: seq<E>, keep: E -> bool)
    ensures forall t :: 0 <= t < |KeptIndices(s, keep)| ==> KeptIndices(s, keep)[t] < |s|
    decreases |s|
  {
    if s != [] {
      KeptIndicesBounded(s[..|s| - 1], keep);
    }
  }

  lemma {:induction false} KeptIndicesIncreasing<E>(s: seq<E>, keep: E -> bool)
    ensures Increasing(KeptIndices(s, keep))
    decreases |s|
  {
    if s != [] {
      KeptIndicesIncreasing(s[..|s| - 1], keep);
      KeptIndicesBounded(s[..|s| - 1], keep);
    }
  }

  /** A position is kept exactly when its element satisfies keep. */
  lemma {:induction false} KeptIndicesExact<E>(s: seq<E>, keep: E -> bool)
    ensures forall j :: 0 <= j < |s| ==> (j in KeptIndices(s, keep) <==> keep(s[j]))
    decreases |s|
  {
    if s != [] {
      var init := s[..|s| - 1];
      KeptIndicesExact(init, keep);
      KeptIndicesBounded(init, keep);
      forall j | 0 <= j < |s|
        ensures j in KeptIndices(s, keep) <==> keep(s[j])
      {
        if j < |s| - 1 {
          assert s[j] == init[j];
        }
      }
    }
  }

  /** The t-th image is the image of the t-th kept element. */
  lemma {:induction false} FilterMapImages<E, F>(s: seq<E>, keep: E -> bool, f: E -> F)
    ensures |FilterMap(s, keep, f)| == |KeptIndices(s, keep)|
    ensures forall t :: 0 <= t < |KeptIndices(s, keep)| ==>
      KeptIndices(s, keep)[t] < |s| && FilterMap(s, keep, f)[t] == f(s[KeptIndices(s, keep)[t]])
    decreases |s|
  {
    KeptIndicesBounded(s, keep);
    if s != [] {
      var init := s[..|s| - 1];
      FilterMapImages(init, keep, f);
      KeptIndicesBounded(init, keep);
      forall t | 0 <= t < |KeptIndices(s, keep)|
        ensures FilterMap(s, keep, f)[t] == f(s[KeptIndices(s, keep)[t]])
      {
        if t < |KeptIndices(init, keep)| {
          assert s[KeptIndices(init, keep)[t]] == init[KeptIndices(init, keep)[t]];
        }
      }
    }
  }

  /** FilterMap is exactly "one image per kept position, in position order":
      the kept positions are increasing, are precisely those satisfying
      keep, and the t-th image is that of the t-th kept position. */
  lemma FilterMapAt<E, F>(s: seq<E>, keep: E -> bool, f: E -> F)
    ensures var r, k := FilterMap(s, keep, f), KeptIndices(s, keep);
      |r| == |k|
      && Increasing(k)
      && (forall t :: 0 <= t < |k| ==> k[t] < |s| && r[t] == f(s[k[t]]))
      && (forall j :: 0 <= j < |s| ==> (j in k <==> keep(s[j])))
  {
    FilterMapImages(s, keep, f);
    KeptIndicesIncreasing(s, keep);
    KeptIndicesExact(s, keep);
  }

  /** Two selections one after the other: the t-th image is that of the
      t-th kept element of s, and the image at |k| + u is that of the u-th
      kept element of s'. */
  lemma FilterMapConcatAt<E, E', F>(s: seq<E>, keep: E -> bool, f: E -> F, s': seq<E'>, keep': E' -> bool, f': E' -> F)
    ensures var r, k, k' := FilterMap(s, keep, f) + FilterMap(s', keep', f'), KeptIndices(s, keep), KeptIndices(s', keep');
      |r| == |k| + |k'| <= |s| + |s'|
      && (forall t :: 0 <= t < |k| ==> k[t] < |s| && r[t] == f(s[k[t]]))
      && (forall u :: 0 <= u < |k'| ==> k'[u] < |s'| && r[|k| + u] == f'(s'[k'[u]]))
  {
    FilterMapImages(s, keep, f);
    FilterMapImages(s', keep', f');
  }

  /** The elements of s that satisfy p, in order. */
  function Filter<F>(s: seq<F>, p: F -> bool): (r: seq<F>)
    ensures |r| <= |s|
  {
    if s == [] then [] else Filter(s[..|s| - 1], p) + (if p(s[|s| - 1]) then [s[|s| - 1]] else [])
  }

  /** Selecting with a stronger condition that only looks at the image is
      filtering the images again. */
  lemma {:induction false} FilterMapRefine<E, F>(s: seq<E>, keep: E -> bool, f: E -> F, p: F -> bool, both: E -> bool)
    requires forall e :: both(e) == (keep(e) && p(f(e)))
    ensures FilterMap(s, both, f) == Filter(FilterMap(s, keep, f), p)
    decreases |s|
  {
    if s != [] {
      var init := s[..|s| - 1];
      var last := s[|s| - 1];
      FilterMapRefine(init, keep, f, p, both);
      var r := FilterMap(init, keep, f);
      if keep(last) {
        var r' := r + [f(last)];
        assert r'[..|r'| - 1] == r;
      } else {
        assert FilterMap(s, keep, f) == r;
      }
    }
  }

  /** Two image functions that agree on a key select entries with the same
      keys, position by position. */
  lemma {:induction false} FilterMapSameKeys<E, F, K>(s: seq<E>, keep: E -> bool, f: E -> F, f': E -> F, key: F -> K)
    requires forall e :: key(f(e)) == key(f'(e))
    ensures |FilterMap(s, keep, f)| == |FilterMap(s, keep, f')|
    ensures forall t :: 0 <= t < |FilterMap(s, keep, f)| ==>
      key(FilterMap(s, keep, f)[t]) == key(FilterMap(s, keep, f')[t])
    decreases |s|
  {
    if s != [] {
      FilterMapSameKeys(s[..|s| - 1], keep, f, f', key);
    }
  }

  /** The concatenation of a sequence of strings, built from the back as
      repeated `+=` builds it. */
  function Flatten(ss: seq<string>): (r: string)
    ensures ss == [] ==> r == ""
  {
    if ss == [] then "" else Flatten(ss[..|ss| - 1]) + ss[|ss| - 1]
  }

  lemma FlattenStep(ss: seq<string>, i: nat)
    requires i < |ss|
    ensures Flatten(ss[..i + 1]) == Flatten(ss[..i]) + ss[i]
  {
    assert ss[..i + 1][..i] == ss[..i];
  }

  /** Flattening distributes over concatenation. */
  lemma {:induction false} FlattenAppend(a: seq<string>, b: seq<string>)
    ensures Flatten(a + b) == Flatten(a) + Flatten(b)
    decreases |b|
  {
    if b == [] {
      assert a + b == a;
    } else {
      var b' := b[..|b| - 1];
      assert (a + b)[..|a + b| - 1] == a + b';
      FlattenAppend(a, b');
    }
  }

  lemma FlattenPush(ss: seq<string>, x: string)
    ensures Flatten(ss + [x]) == Flatten(ss) + x
  {
    assert (ss + [x])[..|ss|] == ss;
  }
}
