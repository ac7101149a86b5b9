/**
 The array operations the reconciliation is built from, `Array.prototype.map`,
 `Array.prototype.filter` and `Array.prototype.find`, plus `filter(Boolean)` over a
 sequence of optional values,
 together with the facts that characterise them by positions in the input.
 */
module Seqs {
  import opened Wrappers

  /** The positions in `idx` are strictly increasing. */
  ghost predicate Increasing(idx: seq<nat>)
  {
    forall k, l :: 0 <= k < l < |idx| ==> idx[k] < idx[l]
  }

  /** `out` is read off `src` at the positions `idx`, in that order. */
  ghost predicate Picks<T>(out: seq<T>, src: seq<T>, idx: seq<nat>)
  {
    && |idx| == |out|
    && forall k :: 0 <= k < |idx| ==> idx[k] < |src| && out[k] == src[idx[k]]
  }

  /** `s.map(f)`. */
  function Map<T, U>(s: seq<T>, f: T -> U): seq<U>
  {
    seq(|s|, i requires 0 <= i < |s| => f(s[i]))
  }

  /** `s.filter(keep)`: the elements of `s` that satisfy `keep`, in their order. */
  function Filter<T>(s: seq<T>, keep: T -> bool): (r: seq<T>)
    ensures |r| <= |s|
    ensures forall x :: x in r ==> x in s && keep(x)
    decreases |s|
  {
    if s == [] then []
    else
      var init := Filter(s[..|s| - 1], keep);
      if keep(s[|s| - 1]) then init + [s[|s| - 1]] else init
  }

  /** `out` is the subsequence of `s` at the positions `idx`, which are exactly those satisfying `keep`. */
  ghost predicate PicksFiltered<T>(out: seq<T>, s: seq<T>, keep: T -> bool, idx: seq<nat>)
  {
    && Increasing(idx) && Picks(out, s, idx)
    && forall i :: 0 <= i < |s| ==> (i in idx <==> keep(s[i]))
  }

  /** One more element at the end of `s`: kept or dropped as `keep` says. */
  lemma FilterStep<T>(out: seq<T>, s: seq<T>, x: T, keep: T -> bool, idx: seq<nat>)
    requires PicksFiltered(out, s, keep, idx)
    ensures keep(x) ==> PicksFiltered(out + [x], s + [x], keep, idx + [|s|])
    ensures !keep(x) ==> PicksFiltered(out, s + [x], keep, idx)
  {
    var s' := s + [x];
    assert forall i :: 0 <= i < |s| ==> s'[i] == s[i];
    if keep(x) {
      var idx' := idx + [|s|];
      assert Picks(out + [x], s', idx');
      assert Increasing(idx');
      assert forall i :: 0 <= i < |s'| ==> (i in idx' <==> i in idx || i == |s|);
    }
  }

  /**
   The result of `Filter` is the subsequence of `s` made of exactly the positions
   whose element satisfies `keep`.
   */
  lemma {:induction false} FilterSelects<T>(s: seq<T>, keep: T -> bool)
    ensures exists idx :: PicksFiltered(Filter(s, keep), s, keep, idx)
  {
    if s == [] {
      assert PicksFiltered(Filter(s, keep), s, keep, []);
    } else {
      var n := |s| - 1;
      var init := s[..n];
      assert s == init + [s[n]];
      FilterSelects(init, keep);
      var idx0: seq<nat> :| PicksFiltered(Filter(init, keep), init, keep, idx0);
      FilterStep(Filter(init, keep), init, s[n], keep, idx0);
      if keep(s[n]) {
        assert PicksFiltered(Filter(s, keep), s, keep, idx0 + [n]);
      } else {
        assert PicksFiltered(Filter(s, keep), s, keep, idx0);
      }
    }
  }

  /** Mapping then filtering is filtering by the mapped test, then mapping. */
  lemma {:induction false} FilterMap<T, U>(s: seq<T>, f: T -> U, keep: U -> bool, kept: T -> bool)
    requires forall x :: kept(x) == keep(f(x))
    ensures Filter(Map(s, f), keep) == Map(Filter(s, kept), f)
    decreases |s|
  {
    if s != [] {
      var n := |s| - 1;
      assert Map(s, f)[..n] == Map(s[..n], f);
      FilterMap(s[..n], f, keep, kept);
      var rest := Filter(s[..n], kept);
      if kept(s[n]) {
        assert Map(rest + [s[n]], f) == Map(rest, f) + [f(s[n])];
      }
    }
  }

  /** Filtering with a predicate every element satisfies keeps the whole sequence. */
  lemma {:induction false} FilterAll<T>(s: seq<T>, keep: T -> bool)
    requires forall x :: x in s ==> keep(x)
    ensures Filter(s, keep) == s
  {
    if s != [] {
      FilterAll(s[..|s| - 1], keep);
      assert s[..|s| - 1] + [s[|s| - 1]] == s;
    }
  }

  /** Filtering with a predicate no element satisfies gives the empty sequence. */
  lemma {:induction false} FilterNone<T>(s: seq<T>, keep: T -> bool)
    requires forall x :: x in s ==> !keep(x)
    ensures Filter(s, keep) == []
  {
    if s != [] {
      FilterNone(s[..|s| - 1], keep);
    }
  }

  /**
   What a filter keeps and what it drops add up to the input: with K elements
   failing `keep` out of N, the filter has N - K elements.
   */
  lemma {:induction false} FilterSplit<T>(s: seq<T>, keep: T -> bool, drop: T -> bool)
    requires forall x :: drop(x) == !keep(x)
    ensures |Filter(s, keep)| + |Filter(s, drop)| == |s|
    decreases |s|
  {
    if s != [] {
      FilterSplit(s[..|s| - 1], keep, drop);
    }
  }

  /** `i` is the first position of `s` whose element satisfies `p`. */
  ghost predicate FirstIndex<T>(s: seq<T>, p: T -> bool, i: int)
  {
    && 0 <= i < |s| && p(s[i])
    && forall j :: 0 <= j < i ==> !p(s[j])
  }

  /** `s.find(p)`: the first element of `s` that satisfies `p`, if there is one. */
  function Find<T>(s: seq<T>, p: T -> bool): (r: Option<T>)
    ensures r.Some? ==> r.value in s && p(r.value)
    ensures r.None? <==> forall x :: x in s ==> !p(x)
  {
    if s == [] then None
    else if p(s[0]) then Some(s[0])
    else Find(s[1..], p)
  }

  /** `Find` returns the element at the first position that satisfies `p`, and only that one. */
  lemma {:induction false} FindFirst<T>(s: seq<T>, p: T -> bool)
    ensures Find(s, p).Some? ==> exists i :: FirstIndex(s, p, i) && Find(s, p).value == s[i]
    ensures forall i :: FirstIndex(s, p, i) ==> Find(s, p) == Some(s[i])
  {
    if s != [] && !p(s[0]) {
      var t := s[1..];
      FindFirst(t, p);
      if Find(s, p).Some? {
        var i :| FirstIndex(t, p, i) && Find(t, p).value == t[i];
        assert FirstIndex(s, p, i + 1);
      }
      forall i | FirstIndex(s, p, i)
        ensures Find(s, p) == Some(s[i])
      {
        assert i != 0;
        assert FirstIndex(t, p, i - 1);
      }
    } else if s != [] {
      assert FirstIndex(s, p, 0);
      forall i | FirstIndex(s, p, i)
        ensures Find(s, p) == Some(s[i])
      {
        assert i == 0;
      }
    }
  }

  /** `s.filter(Boolean)` over optional values: the present values, in their order. */
  function Somes<T>(s: seq<Option<T>>): (r: seq<T>)
    ensures |r| <= |s|
    ensures forall x :: x in r ==> Some(x) in s
    decreases |s|
  {
    if s == [] then []
    else
      var init := Somes(s[..|s| - 1]);
      match s[|s| - 1]
      case Some(x) => init + [x]
      case None => init
  }

  /** `out` holds the present values of `s` read at the positions `idx`, which are all of them. */
  ghost predicate PicksSomes<T>(out: seq<T>, s: seq<Option<T>>, idx: seq<nat>)
  {
    && Increasing(idx) && |idx| == |out|
    && (forall k :: 0 <= k < |idx| ==> idx[k] < |s| && s[idx[k]] == Some(out[k]))
    && forall i :: 0 <= i < |s| ==> (i in idx <==> s[i].Some?)
  }

  /** One more optional value at the end of `s`: kept when present. */
  lemma SomesStep<T>(out: seq<T>, s: seq<Option<T>>, x: Option<T>, idx: seq<nat>)
    requires PicksSomes(out, s, idx)
    ensures x.Some? ==> PicksSomes(out + [x.value], s + [x], idx + [|s|])
    ensures x.None? ==> PicksSomes(out, s + [x], idx)
  {
    var s' := s + [x];
    assert forall i :: 0 <= i < |s| ==> s'[i] == s[i];
    if x.Some? {
      var idx' := idx + [|s|];
      assert Increasing(idx');
      assert forall i :: 0 <= i < |s'| ==> (i in idx' <==> i in idx || i == |s|);
    }
  }

  /** `Somes` reads exactly the present positions of `s`, in order. */
  lemma {:induction false} SomesSelects<T>(s: seq<Option<T>>)
    ensures exists idx :: PicksSomes(Somes(s), s, idx)
  {
    if s == [] {
      assert PicksSomes(Somes(s), s, []);
    } else {
      var n := |s| - 1;
      var init := s[..n];
      assert s == init + [s[n]];
      SomesSelects(init);
      var idx0: seq<nat> :| PicksSomes(Somes(init), init, idx0);
      SomesStep(Somes(init), init, s[n], idx0);
      if s[n].Some? {
        assert PicksSomes(Somes(s), s, idx0 + [n]);
      } else {
        assert PicksSomes(Somes(s), s, idx0);
      }
    }
  }

  /** No value is present, so nothing is kept. */
  lemma {:induction false} SomesNone<T>(s: seq<Option<T>>)
    requires forall i :: 0 <= i < |s| ==> s[i].None?
    ensures Somes(s) == []
  {
    if s != [] {
      SomesNone(s[..|s| - 1]);
    }
  }
}
