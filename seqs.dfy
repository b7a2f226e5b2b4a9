/** Sequence operations that the extractor gets from Python's built-ins:
    slicing to a prefix, `dict.fromkeys` de-duplication, list comprehensions
    with a condition, and the stable descending sorts done by `list.sort`
    and `Counter.most_common` on (item, count) pairs. */
module Seqs {
  import opened Wrappers

  /** `s[:n]` for a non-negative `n`. */
  function Take<T>(s: seq<T>, n: nat): (r: seq<T>)
    ensures |r| <= n && |r| <= |s|
    ensures r == s[..if n < |s| then n else |s|]
  {
    if n < |s| then s[..n] else s
  }

  predicate NoDuplicates<T(==)>(s: seq<T>) {
    forall i, j :: 0 <= i < j < |s| ==> s[i] != s[j]
  }

  predicate IsPrefix<T(==)>(p: seq<T>, s: seq<T>) {
    |p| <= |s| && s[..|p|] == p
  }

  /** Index of the first occurrence of `x` in `s`. */
  function FirstIndex<T(==)>(s: seq<T>, x: T): (k: nat)
    requires x in s
    ensures k < |s| && s[k] == x
    ensures forall j :: 0 <= j < k ==> s[j] != x
  {
    if s[0] == x then 0 else 1 + FirstIndex(s[1..], x)
  }

  /** `list(dict.fromkeys(s))`: each element once, at its first occurrence. */
  function Dedup<T(==)>(s: seq<T>): (r: seq<T>)
    decreases |s|
  {
    if s == [] then []
    else
      var r := Dedup(s[..|s| - 1]);
      if s[|s| - 1] in r then r else r + [s[|s| - 1]]
  }

  /** De-duplication keeps exactly the elements of `s`, each once. */
  lemma {:induction false} DedupElements<T>(s: seq<T>)
    ensures NoDuplicates(Dedup(s))
    ensures forall x :: x in Dedup(s) <==> x in s
    decreases |s|
  {
    if s != [] {
      var init := s[..|s| - 1];
      DedupElements(init);
      assert forall x :: x in s <==> x in init || x == s[|s| - 1];
    }
  }

  /** The elements of `Dedup(s)` are in the order of their first occurrence in `s`. */
  lemma {:induction false} DedupOrder<T>(s: seq<T>)
    ensures forall x :: x in Dedup(s) ==> x in s
    ensures forall i, j :: 0 <= i < j < |Dedup(s)| ==>
              FirstIndex(s, Dedup(s)[i]) < FirstIndex(s, Dedup(s)[j])
    decreases |s|
  {
    DedupElements(s);
    if s != [] {
      var init := s[..|s| - 1];
      var last := s[|s| - 1];
      DedupOrder(init);
      DedupElements(init);
      var r := Dedup(init);
      forall x | x in init ensures FirstIndex(s, x) == FirstIndex(init, x) {
        FirstIndexPrefix(init, s, x);
      }
      if last !in r {
        assert last !in init;
        assert FirstIndex(s, last) == |s| - 1 by {
          assert forall j :: 0 <= j < |s| - 1 ==> s[j] == init[j];
          assert s[|s| - 1] == last;
        }
        forall i | 0 <= i < |r| ensures FirstIndex(s, r[i]) < |s| - 1 {
          assert r[i] in init;
        }
      }
    }
  }

  lemma {:induction false} FirstIndexPrefix<T>(p: seq<T>, s: seq<T>, x: T)
    requires IsPrefix(p, s) && x in p
    ensures x in s && FirstIndex(s, x) == FirstIndex(p, x)
  {
    if p[0] != x {
      assert s[0] == p[0];
      assert x in p[1..];
      FirstIndexPrefix(p[1..], s[1..], x);
    }
  }

  /** The first `Some` in `ms` at or after position `i`. */
  function FirstSome<T>(ms: seq<Option<T>>, i: nat): (r: Option<T>)
    requires i <= |ms|
    ensures r.Some? ==> r in ms
    decreases |ms| - i
  {
    if i == |ms| then None else if ms[i].Some? then ms[i] else FirstSome(ms, i + 1)
  }

  /** There is no first `Some` exactly when there is no `Some` at all. */
  lemma {:induction false} FirstSomeNone<T>(ms: seq<Option<T>>, i: nat)
    requires i <= |ms|
    ensures FirstSome(ms, i).None? <==> forall j :: i <= j < |ms| ==> ms[j].None?
    decreases |ms| - i
  {
    if i < |ms| && ms[i].None? {
      FirstSomeNone(ms, i + 1);
    }
  }

  /** The first `Some` is the one at the leftmost position holding one. */
  lemma {:induction false} FirstSomeLeftmost<T>(ms: seq<Option<T>>, i: nat, j: nat)
    requires i <= j < |ms| && ms[j].Some?
    requires forall k :: i <= k < j ==> ms[k].None?
    ensures FirstSome(ms, i) == ms[j]
    decreases j - i
  {
    if i < j {
      FirstSomeLeftmost(ms, i + 1, j);
    }
  }

  /** The first components of a sequence of pairs. */
  function Firsts<T, U>(ps: seq<(T, U)>): (r: seq<T>)
    ensures |r| == |ps|
    ensures forall i :: 0 <= i < |ps| ==> r[i] == ps[i].0
  {
    if ps == [] then [] else [ps[0].0] + Firsts(ps[1..])
  }

  /** `[x for x in s if x in keep]`. */
  function FilterIn<T(==)>(s: seq<T>, keep: seq<T>): (r: seq<T>)
    ensures |r| <= |s|
    ensures forall i :: 0 <= i < |r| ==> r[i] in s && r[i] in keep
    ensures forall i :: 0 <= i < |s| && s[i] in keep ==> s[i] in r
  {
    if s == [] then []
    else (if s[0] in keep then [s[0]] else []) + FilterIn(s[1..], keep)
  }

  lemma {:induction false} FilterInAppend<T>(s: seq<T>, t: seq<T>, keep: seq<T>)
    ensures FilterIn(s + t, keep) == FilterIn(s, keep) + FilterIn(t, keep)
  {
    if s != [] {
      assert (s + t)[1..] == s[1..] + t;
      FilterInAppend(s[1..], t, keep);
    } else {
      assert s + t == t;
    }
  }

  /** `a` is `b` read at the strictly increasing positions `idx`. */
  predicate SubsequenceAt<T(==)>(a: seq<T>, b: seq<T>, idx: seq<nat>) {
    |idx| == |a|
    && (forall k :: 0 <= k < |idx| ==> idx[k] < |b| && a[k] == b[idx[k]])
    && (forall k, l :: 0 <= k < l < |idx| ==> idx[k] < idx[l])
  }

  /** The positions of `s` whose element is in `keep`, in increasing order. */
  function FilterPositions<T(==)>(s: seq<T>, keep: seq<T>): seq<nat> {
    if s == [] then []
    else (if s[0] in keep then [0] else []) + Shift(FilterPositions(s[1..], keep))
  }

  /** Every position moved one place on. */
  function Shift(ps: seq<nat>): (r: seq<nat>)
    ensures |r| == |ps| && forall k :: 0 <= k < |ps| ==> r[k] == ps[k] + 1
  {
    seq(|ps|, k requires 0 <= k < |ps| => ps[k] + 1)
  }

  /** The filter takes exactly the elements at those positions, in order. */
  lemma {:induction false} FilterInIndices<T>(s: seq<T>, keep: seq<T>)
    ensures SubsequenceAt(FilterIn(s, keep), s, FilterPositions(s, keep))
  {
    if s != [] {
      var tl := s[1..];
      FilterInIndices(tl, keep);
      ShiftIndices(FilterIn(tl, keep), s, FilterPositions(tl, keep));
      assert FilterIn(s, keep) == (if s[0] in keep then [s[0]] else []) + FilterIn(tl, keep);
      if s[0] in keep {
        ConsIndices(s[0], FilterIn(tl, keep), s, Shift(FilterPositions(tl, keep)));
      }
    }
  }

  /** Every position whose element is in `keep` is among the positions. */
  lemma {:induction false} FilterPositionsComplete<T>(s: seq<T>, keep: seq<T>)
    ensures forall q :: 0 <= q < |s| && s[q] in keep ==> q in FilterPositions(s, keep)
  {
    if s != [] {
      var tl := s[1..];
      FilterPositionsComplete(tl, keep);
      var inner := FilterPositions(tl, keep);
      forall q | 1 <= q < |s| && s[q] in keep ensures q in Shift(inner) {
        assert tl[q - 1] == s[q];
        var k :| 0 <= k < |inner| && inner[k] == q - 1;
        assert Shift(inner)[k] == q;
      }
    }
  }

  /** Positions in `s[1..]` moved to positions in `s`. */
  lemma ShiftIndices<T>(a: seq<T>, s: seq<T>, inner: seq<nat>)
    requires s != [] && SubsequenceAt(a, s[1..], inner)
    ensures SubsequenceAt(a, s, Shift(inner))
    ensures forall k :: 0 <= k < |Shift(inner)| ==> Shift(inner)[k] > 0
  {
  }

  /** Putting position 0 in front of positions that are all later. */
  lemma ConsIndices<T>(x: T, a: seq<T>, s: seq<T>, shifted: seq<nat>)
    requires s != [] && s[0] == x
    requires SubsequenceAt(a, s, shifted) && forall k :: 0 <= k < |shifted| ==> shifted[k] > 0
    ensures SubsequenceAt([x] + a, s, [0] + shifted)
  {
    var idx := [0] + shifted;
    forall k | 0 <= k < |idx| ensures idx[k] < |s| && ([x] + a)[k] == s[idx[k]] {
      if k > 0 {
        assert idx[k] == shifted[k - 1];
      }
    }
  }

  /** `[x for x in s if p(x)]`. */
  function FilterBy<T>(s: seq<T>, p: T -> bool): (r: seq<T>)
    ensures |r| <= |s|
    ensures forall x :: x in r ==> x in s && p(x)
  {
    if s == [] then []
    else (if p(s[0]) then [s[0]] else []) + FilterBy(s[1..], p)
  }

  /** Nothing satisfies `p`: the comprehension is empty. */
  lemma {:induction false} FilterByNone<T>(s: seq<T>, p: T -> bool)
    requires forall q :: 0 <= q < |s| ==> !p(s[q])
    ensures FilterBy(s, p) == []
  {
    if s != [] {
      assert forall q :: 0 <= q < |s[1..]| ==> s[1..][q] == s[q + 1];
      FilterByNone(s[1..], p);
    }
  }

  /** The positions of `s` whose element satisfies `p`, in increasing order. */
  function PositionsBy<T>(s: seq<T>, p: T -> bool): seq<nat> {
    if s == [] then []
    else (if p(s[0]) then [0] else []) + Shift(PositionsBy(s[1..], p))
  }

  /** The comprehension is `s` read at the positions whose element satisfies `p`. */
  lemma {:induction false} FilterByIndices<T>(s: seq<T>, p: T -> bool)
    ensures SubsequenceAt(FilterBy(s, p), s, PositionsBy(s, p))
  {
    if s != [] {
      var tl := s[1..];
      FilterByIndices(tl, p);
      ShiftIndices(FilterBy(tl, p), s, PositionsBy(tl, p));
      assert FilterBy(s, p) == (if p(s[0]) then [s[0]] else []) + FilterBy(tl, p);
      if p(s[0]) {
        ConsIndices(s[0], FilterBy(tl, p), s, Shift(PositionsBy(tl, p)));
      }
    }
  }

  /** A position is among them exactly when its element satisfies `p`. */
  lemma {:induction false} PositionsByExact<T>(s: seq<T>, p: T -> bool)
    ensures forall q :: 0 <= q < |s| ==> (q in PositionsBy(s, p) <==> p(s[q]))
  {
    if s != [] {
      var tl := s[1..];
      PositionsByExact(tl, p);
      var inner := PositionsBy(tl, p);
      assert PositionsBy(s, p) == (if p(s[0]) then [0] else []) + Shift(inner);
      forall q | 1 <= q < |s| ensures q in Shift(inner) <==> p(s[q]) {
        assert tl[q - 1] == s[q];
        if p(s[q]) {
          var k :| 0 <= k < |inner| && inner[k] == q - 1;
          assert Shift(inner)[k] == q;
        }
        if q in Shift(inner) {
          var k :| 0 <= k < |inner| && Shift(inner)[k] == q;
          assert inner[k] == q - 1;
        }
      }
      assert 0 !in Shift(inner);
    }
  }

  /** The comprehension read at its positions, with the positions pinned down. */
  lemma FilterByExact<T>(s: seq<T>, p: T -> bool) returns (idx: seq<nat>)
    ensures SubsequenceAt(FilterBy(s, p), s, idx)
    ensures forall q :: 0 <= q < |s| ==> (q in idx <==> p(s[q]))
  {
    idx := PositionsBy(s, p);
    FilterByIndices(s, p);
    PositionsByExact(s, p);
  }

  /** Filtering a sequence with one more element at the end adds that element
      at the end when it satisfies `p`. */
  lemma {:induction false} FilterBySnoc<T>(s: seq<T>, x: T, p: T -> bool)
    ensures FilterBy(s + [x], p) == FilterBy(s, p) + (if p(x) then [x] else [])
  {
    if s != [] {
      assert (s + [x])[1..] == s[1..] + [x];
      FilterBySnoc(s[1..], x, p);
    }
  }

  /** A prefix of a subsequence is a subsequence at the prefix of the positions. */
  lemma SubsequenceTake<T>(a: seq<T>, b: seq<T>, idx: seq<nat>, n: nat)
    requires SubsequenceAt(a, b, idx)
    ensures SubsequenceAt(Take(a, n), b, Take(idx, n))
  {
  }

  // ---------------------------------------------------------------------------
  // Stable descending sort of (item, key) pairs by the key, as Python's
  // `sort(key=lambda x: x[1], reverse=True)` and `heapq.nlargest` do.

  predicate NonIncreasing<T>(ps: seq<(T, nat)>) {
    forall i, j :: 0 <= i < j < |ps| ==> ps[i].1 >= ps[j].1
  }

  /** Insert `p` in front of every pair whose key is not larger than its own. */
  function Insert<T>(p: (T, nat), ps: seq<(T, nat)>): seq<(T, nat)> {
    if ps == [] || p.1 >= ps[0].1 then [p] + ps
    else [ps[0]] + Insert(p, ps[1..])
  }

  /** Stable sort by descending key (insertion sort). */
  function SortDesc<T>(ps: seq<(T, nat)>): (r: seq<(T, nat)>)
    ensures |r| == |ps|
  {
    if ps == [] then [] else InsertLength(ps[0], SortDesc(ps[1..])); Insert(ps[0], SortDesc(ps[1..]))
  }

  lemma {:induction false} InsertLength<T>(p: (T, nat), ps: seq<(T, nat)>)
    ensures |Insert(p, ps)| == |ps| + 1
  {
    if ps != [] && p.1 < ps[0].1 {
      InsertLength(p, ps[1..]);
    }
  }

  lemma {:induction false} InsertMultiset<T>(p: (T, nat), ps: seq<(T, nat)>)
    ensures multiset(Insert(p, ps)) == multiset(ps) + multiset{p}
  {
    if ps != [] && p.1 < ps[0].1 {
      InsertMultiset(p, ps[1..]);
      assert ps == [ps[0]] + ps[1..];
    }
  }

  lemma {:induction false} InsertSorted<T>(p: (T, nat), ps: seq<(T, nat)>)
    requires NonIncreasing(ps)
    ensures NonIncreasing(Insert(p, ps))
  {
    if ps != [] && p.1 < ps[0].1 {
      var tl := ps[1..];
      InsertSorted(p, tl);
      InsertMultiset(p, tl);
      var ins := Insert(p, tl);
      assert Insert(p, ps) == [ps[0]] + ins;
      forall i | 0 <= i < |ins| ensures ps[0].1 >= ins[i].1 {
        assert ins[i] in multiset(ins);
        if ins[i] != p {
          assert ins[i] in multiset(tl);
          var j :| 0 <= j < |tl| && tl[j] == ins[i];
          assert tl[j] == ps[j + 1];
        }
      }
    }
  }

  /** `Insert` puts `p` after exactly the pairs with a larger key. */
  lemma {:induction false} InsertSplit<T>(p: (T, nat), ps: seq<(T, nat)>) returns (pos: nat)
    requires NonIncreasing(ps)
    ensures pos <= |ps| && Insert(p, ps) == ps[..pos] + [p] + ps[pos..]
    ensures forall i :: 0 <= i < pos ==> ps[i].1 > p.1
  {
    if ps == [] || p.1 >= ps[0].1 {
      pos := 0;
    } else {
      var tl := ps[1..];
      var pos' := InsertSplit(p, tl);
      pos := pos' + 1;
      assert ps[..pos] == [ps[0]] + tl[..pos'];
      assert ps[pos..] == tl[pos'..];
    }
  }

  /** Among pairs with equal keys, `r` keeps the order they have in `ps`. */
  predicate StableOrder<T(==)>(ps: seq<(T, nat)>, r: seq<(T, nat)>)
    requires forall k :: 0 <= k < |r| ==> r[k] in ps
  {
    forall i, j :: 0 <= i < j < |r| && r[i].1 == r[j].1 ==> FirstIndex(ps, r[i]) < FirstIndex(ps, r[j])
  }

  /** `SortDesc` permutes its input and orders it by non-increasing key. */
  lemma {:induction false} SortDescProperties<T>(ps: seq<(T, nat)>)
    ensures NonIncreasing(SortDesc(ps))
    ensures multiset(SortDesc(ps)) == multiset(ps)
  {
    if ps != [] {
      var rest := SortDesc(ps[1..]);
      SortDescProperties(ps[1..]);
      InsertSorted(ps[0], rest);
      InsertMultiset(ps[0], rest);
      assert ps == [ps[0]] + ps[1..];
    }
  }

  lemma SortDescMembers<T>(ps: seq<(T, nat)>)
    ensures forall k :: 0 <= k < |SortDesc(ps)| ==> SortDesc(ps)[k] in ps
  {
    SortDescProperties(ps);
    var r := SortDesc(ps);
    forall k | 0 <= k < |r| ensures r[k] in ps {
      assert r[k] in multiset(r);
    }
  }

  /** The pairs with `f` applied to their first components. */
  function MapFirsts<T, U>(f: T -> U, ps: seq<(T, nat)>): (r: seq<(U, nat)>)
    ensures |r| == |ps| && forall k :: 0 <= k < |ps| ==> r[k] == (f(ps[k].0), ps[k].1)
  {
    seq(|ps|, k requires 0 <= k < |ps| => (f(ps[k].0), ps[k].1))
  }

  lemma {:induction false} InsertMap<T, U>(f: T -> U, p: (T, nat), ps: seq<(T, nat)>)
    ensures Insert((f(p.0), p.1), MapFirsts(f, ps)) == MapFirsts(f, Insert(p, ps))
  {
    if ps != [] && p.1 < ps[0].1 {
      InsertMap(f, p, ps[1..]);
      assert MapFirsts(f, ps)[1..] == MapFirsts(f, ps[1..]);
      InsertLength(p, ps[1..]);
      assert MapFirsts(f, Insert(p, ps)) == [(f(ps[0].0), ps[0].1)] + MapFirsts(f, Insert(p, ps[1..]));
    } else {
      assert MapFirsts(f, [p] + ps) == [(f(p.0), p.1)] + MapFirsts(f, ps);
    }
  }

  /** The sort looks only at the keys: sorting pairs and then mapping their
      first components is mapping and then sorting. */
  lemma {:induction false} SortDescMap<T, U>(f: T -> U, ps: seq<(T, nat)>)
    ensures SortDesc(MapFirsts(f, ps)) == MapFirsts(f, SortDesc(ps))
  {
    if ps != [] {
      SortDescMap(f, ps[1..]);
      assert MapFirsts(f, ps)[1..] == MapFirsts(f, ps[1..]);
      InsertMap(f, ps[0], SortDesc(ps[1..]));
    }
  }

  /** `SortDesc` is stable: pairs with equal keys keep their input order. */
  lemma {:induction false} SortDescStable<T>(ps: seq<(T, nat)>)
    requires NoDuplicates(ps)
    ensures forall k :: 0 <= k < |SortDesc(ps)| ==> SortDesc(ps)[k] in ps
    ensures StableOrder(ps, SortDesc(ps))
  {
    SortDescMembers(ps);
    if ps != [] {
      var tl := ps[1..];
      SortDescProperties(tl);
      SortDescMembers(tl);
      SortDescStable(tl);
      var pos := InsertSplit(ps[0], SortDesc(tl));
      InsertStable(ps, SortDesc(tl), pos);
    }
  }

  /** Pairs whose first components are their own positions. */
  predicate PositionTagged(ix: seq<(nat, nat)>) {
    forall k :: 0 <= k < |ix| ==> ix[k].0 == k
  }

  /** Sorting pairs tagged with their positions: every pair is there once,
      and pairs with equal keys stay in the order of their positions. */
  lemma SortPositions(ix: seq<(nat, nat)>)
    requires PositionTagged(ix)
    ensures forall k :: 0 <= k < |SortDesc<nat>(ix)| ==>
              SortDesc<nat>(ix)[k].0 < |ix| && ix[SortDesc<nat>(ix)[k].0] == SortDesc<nat>(ix)[k]
    ensures forall k :: 0 <= k < |ix| ==> ix[k] in SortDesc<nat>(ix)
    ensures forall i, j :: 0 <= i < j < |SortDesc<nat>(ix)| && SortDesc<nat>(ix)[i].1 == SortDesc<nat>(ix)[j].1 ==>
              SortDesc<nat>(ix)[i].0 < SortDesc<nat>(ix)[j].0
  {
    SortedTaggedMembers(ix);
    SortedTaggedTies(ix);
  }

  lemma SortedTaggedMembers(ix: seq<(nat, nat)>)
    requires PositionTagged(ix)
    ensures forall k :: 0 <= k < |SortDesc<nat>(ix)| ==>
              SortDesc<nat>(ix)[k].0 < |ix| && ix[SortDesc<nat>(ix)[k].0] == SortDesc<nat>(ix)[k]
    ensures forall k :: 0 <= k < |ix| ==> ix[k] in SortDesc<nat>(ix)
  {
    var sx := SortDesc<nat>(ix);
    SortDescMembers(ix);
    SortDescProperties(ix);
    forall k | 0 <= k < |ix| ensures ix[k] in sx {
      assert ix[k] in multiset(sx);
    }
    forall k | 0 <= k < |sx| ensures sx[k].0 < |ix| && ix[sx[k].0] == sx[k] {
      FirstIndexTagged(ix, sx[k]);
    }
  }

  lemma SortedTaggedTies(ix: seq<(nat, nat)>)
    requires PositionTagged(ix)
    ensures forall i, j :: 0 <= i < j < |SortDesc<nat>(ix)| && SortDesc<nat>(ix)[i].1 == SortDesc<nat>(ix)[j].1 ==>
              SortDesc<nat>(ix)[i].0 < SortDesc<nat>(ix)[j].0
  {
    var sx := SortDesc<nat>(ix);
    assert NoDuplicates(ix);
    SortDescStable(ix);
    forall i, j | 0 <= i < j < |sx| && sx[i].1 == sx[j].1 ensures sx[i].0 < sx[j].0 {
      assert FirstIndex(ix, sx[i]) < FirstIndex(ix, sx[j]);
      FirstIndexTagged(ix, sx[i]);
      FirstIndexTagged(ix, sx[j]);
    }
  }

  /** Over position-tagged pairs: a pair with the same key as a later one
      that made the first `m` of the sort made them too. */
  lemma TakeTiesPositions(ix: seq<(nat, nat)>, m: nat, a: nat, c: nat)
    requires PositionTagged(ix)
    requires a < c < |ix| && ix[a].1 == ix[c].1
    requires ix[c] in Take(SortDesc<nat>(ix), m)
    ensures ix[a] in Take(SortDesc<nat>(ix), m)
  {
    var sx := SortDesc<nat>(ix);
    SortPositions(ix);
    var i :| 0 <= i < |Take(sx, m)| && Take(sx, m)[i] == ix[c];
    var j :| 0 <= j < |sx| && sx[j] == ix[a];
    assert j <= i;
    assert Take(sx, m)[j] == ix[a];
  }

  /** The same read through the elements the positions stand for: when the
      key depends on the element only, an element standing before every
      occurrence of another with the same key is among the first `m`
      whenever the other is. */
  lemma TakeTiesMapped<T>(ss: seq<T>, ix: seq<(nat, nat)>, f: nat -> T, m: nat, a: nat, b: nat)
    requires |ix| == |ss| && PositionTagged(ix)
    requires forall k :: 0 <= k < |ss| ==> f(k) == ss[k]
    requires forall p, q :: 0 <= p < |ss| && 0 <= q < |ss| && ss[p] == ss[q] ==> ix[p].1 == ix[q].1
    requires a < |ss| && b < |ss| && a < FirstIndex(ss, ss[b]) && ix[a].1 == ix[b].1
    requires ss[b] in Firsts(Take(MapFirsts(f, SortDesc<nat>(ix)), m))
    ensures ss[a] in Firsts(Take(MapFirsts(f, SortDesc<nat>(ix)), m))
  {
    var sx := SortDesc<nat>(ix);
    SortedTaggedMembers(ix);
    var c := MappedTakeFrom(f, sx, m, ss[b]);
    assert ss[c] == ss[b];
    TakeTiesPositions(ix, m, a, c);
    MappedTakeTo(f, sx, m, ix[a]);
  }

  /** An element among the first `m` of the mapped pairs comes from one of
      the first `m` pairs. */
  lemma MappedTakeFrom<T>(f: nat -> T, sx: seq<(nat, nat)>, m: nat, x: T) returns (c: nat)
    requires x in Firsts(Take(MapFirsts(f, sx), m))
    ensures exists i :: 0 <= i < |Take(sx, m)| && sx[i].0 == c && (c, sx[i].1) in Take(sx, m)
    ensures f(c) == x
  {
    var t := Take(MapFirsts(f, sx), m);
    var i :| 0 <= i < |t| && Firsts(t)[i] == x;
    c := sx[i].0;
    assert Take(sx, m)[i] == sx[i];
  }

  /** A pair among the first `m` maps to an element among the first `m`. */
  lemma MappedTakeTo<T>(f: nat -> T, sx: seq<(nat, nat)>, m: nat, p: (nat, nat))
    requires p in Take(sx, m)
    ensures f(p.0) in Firsts(Take(MapFirsts(f, sx), m))
  {
    var t := Take(MapFirsts(f, sx), m);
    var j :| 0 <= j < |Take(sx, m)| && Take(sx, m)[j] == p;
    assert Firsts(t)[j] == f(p.0);
  }

  lemma FirstIndexTagged(ix: seq<(nat, nat)>, x: (nat, nat))
    requires PositionTagged(ix) && x in ix
    ensures FirstIndex(ix, x) == x.0 && x.0 < |ix| && ix[x.0] == x
  {
  }

  /** One step of the induction: inserting the first pair into the sorted rest. */
  lemma InsertStable<T>(ps: seq<(T, nat)>, rest: seq<(T, nat)>, pos: nat)
    requires ps != [] && NoDuplicates(ps)
    requires forall k :: 0 <= k < |rest| ==> rest[k] in ps[1..]
    requires StableOrder(ps[1..], rest)
    requires pos <= |rest| && forall i :: 0 <= i < pos ==> rest[i].1 > ps[0].1
    ensures forall k :: 0 <= k < |rest[..pos] + [ps[0]] + rest[pos..]| ==>
              (rest[..pos] + [ps[0]] + rest[pos..])[k] in ps
    ensures StableOrder(ps, rest[..pos] + [ps[0]] + rest[pos..])
  {
    var r := rest[..pos] + [ps[0]] + rest[pos..];
    HeadNotInTail(ps);
    forall k | 0 <= k < |r| ensures r[k] in ps && r[k] == Inserted(rest, pos, ps[0], k) {
      assert r[k] == Inserted(rest, pos, ps[0], k);
      if k != pos {
        assert r[k] in ps[1..];
      }
    }
    forall i, j | 0 <= i < j < |r| && r[i].1 == r[j].1
      ensures FirstIndex(ps, r[i]) < FirstIndex(ps, r[j])
    {
      PairStable(ps, rest, pos, i, j);
    }
  }

  /** Position `k` of `rest` with `x` inserted at `pos`. */
  function Inserted<T>(rest: seq<T>, pos: nat, x: T, k: nat): T
    requires pos <= |rest| && k <= |rest|
  {
    if k < pos then rest[k] else if k == pos then x else rest[k - 1]
  }

  lemma HeadNotInTail<T>(ps: seq<T>)
    requires ps != [] && NoDuplicates(ps)
    ensures ps[0] !in ps[1..]
  {
    forall k | 0 <= k < |ps[1..]| ensures ps[1..][k] != ps[0] {
      assert ps[1..][k] == ps[k + 1];
    }
  }

  lemma PairStable<T>(ps: seq<(T, nat)>, rest: seq<(T, nat)>, pos: nat, i: nat, j: nat)
    requires ps != [] && ps[0] !in ps[1..]
    requires forall k :: 0 <= k < |rest| ==> rest[k] in ps[1..]
    requires StableOrder(ps[1..], rest)
    requires pos <= |rest| && forall k :: 0 <= k < pos ==> rest[k].1 > ps[0].1
    requires i < j <= |rest|
    requires Inserted(rest, pos, ps[0], i).1 == Inserted(rest, pos, ps[0], j).1
    ensures Inserted(rest, pos, ps[0], i) in ps && Inserted(rest, pos, ps[0], j) in ps
    ensures FirstIndex(ps, Inserted(rest, pos, ps[0], i)) < FirstIndex(ps, Inserted(rest, pos, ps[0], j))
  {
    var a, b := Inserted(rest, pos, ps[0], i), Inserted(rest, pos, ps[0], j);
    if i == pos {
      assert b == rest[j - 1] && b in ps[1..];
      FirstIndexTail(ps, b);
    } else {
      assert j != pos;
      var i' := if i < pos then i else i - 1;
      var j' := if j < pos then j else j - 1;
      assert a == rest[i'] && b == rest[j'] && i' < j';
      FirstIndexTail(ps, a);
      FirstIndexTail(ps, b);
    }
  }

  lemma FirstIndexTail<T>(ps: seq<T>, y: T)
    requires ps != [] && ps[0] !in ps[1..] && y in ps[1..]
    ensures y in ps && FirstIndex(ps, y) == 1 + FirstIndex(ps[1..], y)
  {
  }

  /** A pair of a list sorted by descending key that is not among its first
      `n` pairs: there are `n` of those, none with a smaller key. */
  lemma {:induction false} TakeLeftOut<T>(sorted: seq<(T, nat)>, n: nat, q: (T, nat))
    requires NonIncreasing(sorted)
    requires q in sorted && q !in Take(sorted, n)
    ensures |Take(sorted, n)| == n
    ensures forall p :: p in Take(sorted, n) ==> p.1 >= q.1
  {
    var j :| 0 <= j < |sorted| && sorted[j] == q;
    assert j >= n;
    forall p | p in Take(sorted, n) ensures p.1 >= q.1 {
      var i :| 0 <= i < n && sorted[i] == p;
    }
  }
}
