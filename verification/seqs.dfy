/** Order-preserving selection from a sequence, the shape of every "keep those that ..." loop in the builder. */
module Seqs {

  /** The elements of `s` that satisfy `keep`, in their order in `s`. */
  function Filter<T(==,!new)>(s: seq<T>, keep: T -> bool): (r: seq<T>)
    ensures |r| <= |s|
    ensures forall x :: x in r <==> x in s && keep(x)
    decreases |s|
  {
    if s == [] then []
    else
      var init := s[..|s| - 1];
      assert s == init + [s[|s| - 1]];
      Filter(init, keep) + (if keep(s[|s| - 1]) then [s[|s| - 1]] else [])
  }

  /** Filtering commutes with concatenation: whatever is kept keeps its relative order. */
  lemma {:induction false} FilterAppend<T(!new)>(a: seq<T>, b: seq<T>, keep: T -> bool)
    ensures Filter(a + b, keep) == Filter(a, keep) + Filter(b, keep)
    decreases |b|
  {
    if b == [] {
      assert a + b == a;
    } else {
      var b' := b[..|b| - 1];
      assert (a + b)[..|a + b| - 1] == a + b';
      assert (a + b)[|a + b| - 1] == b[|b| - 1];
      FilterAppend(a, b', keep);
    }
  }

  /** Everything `s` keeps is kept, so the filter of a sequence whose elements all pass is the sequence. */
  lemma {:induction false} FilterKeepsAll<T(!new)>(s: seq<T>, keep: T -> bool)
    requires forall i :: 0 <= i < |s| ==> keep(s[i])
    ensures Filter(s, keep) == s
    decreases |s|
  {
    if s != [] {
      var init := s[..|s| - 1];
      assert s == init + [s[|s| - 1]];
      assert forall i :: 0 <= i < |init| ==> init[i] == s[i];
      FilterKeepsAll(init, keep);
      assert Filter(s, keep) == Filter(init, keep) + [s[|s| - 1]];
    }
  }

  /** No element occurs twice. */
  predicate NoDuplicates<T(==)>(s: seq<T>) {
    forall i, j :: 0 <= i < j < |s| ==> s[i] != s[j]
  }

  /** A selection from a sequence without repeats has no repeats either. */
  lemma {:induction false} FilterNoDuplicates<T(!new)>(s: seq<T>, keep: T -> bool)
    requires NoDuplicates(s)
    ensures NoDuplicates(Filter(s, keep))
    decreases |s|
  {
    if s != [] {
      var init := s[..|s| - 1];
      var last := s[|s| - 1];
      assert s == init + [last];
      assert NoDuplicates(init) by {
        forall i, j | 0 <= i < j < |init| ensures init[i] != init[j] {
          assert init[i] == s[i] && init[j] == s[j];
        }
      }
      FilterNoDuplicates(init, keep);
      assert last !in init by {
        forall i | 0 <= i < |init| ensures init[i] != last {
          assert init[i] == s[i];
        }
      }
      var r := Filter(s, keep);
      if keep(last) {
        assert r == Filter(init, keep) + [last];
        assert last !in Filter(init, keep);
        forall i, j | 0 <= i < j < |r| ensures r[i] != r[j] {
          if j == |r| - 1 {
            assert r[i] in Filter(init, keep);
          }
        }
      }
    }
  }

  /** A subset as large as its finite superset is the superset. */
  lemma SameSizeSubsetEqual<T>(a: set<T>, b: set<T>)
    requires a <= b && |a| == |b|
    ensures a == b
  {
    assert b == a + (b - a);
    assert a * (b - a) == {};
  }
}
