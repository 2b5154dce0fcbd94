/** Order-preserving selection on sequences, used for every query and partition of the model. */
module Seqs {

  /** The elements of `s` satisfying `f`, in their original order (a list comprehension with an `if`). */
  function Filter<T>(s: seq<T>, f: T -> bool): (r: seq<T>)
    ensures |r| <= |s|
  {
    if s == [] then [] else (if f(s[0]) then [s[0]] else []) + Filter(s[1..], f)
  }

  /** A filter keeps exactly the elements that pass: each kept element comes from `s` and
      passes `f`, and each element of `s` that passes is kept. */
  lemma {:induction false} FilterMembers<T>(s: seq<T>, f: T -> bool)
    ensures forall i :: 0 <= i < |Filter(s, f)| ==> Filter(s, f)[i] in s && f(Filter(s, f)[i])
    ensures forall i :: 0 <= i < |s| && f(s[i]) ==> s[i] in Filter(s, f)
  {
    if s != [] {
      FilterMembers(s[1..], f);
      var r, tail := Filter(s, f), Filter(s[1..], f);
      forall i | 0 <= i < |r| ensures r[i] in s && f(r[i]) {
        if !(f(s[0]) && i == 0) {
          var d := if f(s[0]) then 1 else 0;
          assert r[i] == tail[i - d];
          assert r[i] in s[1..];
        }
      }
      forall i | 0 <= i < |s| && f(s[i]) ensures s[i] in r {
        if i > 0 {
          assert s[i] == s[1..][i - 1];
        }
      }
    }
  }

  /** `a` is obtained from `b` by deleting elements, keeping the rest in order. */
  ghost predicate IsSubsequence<T>(a: seq<T>, b: seq<T>)
  {
    if a == [] then true
    else if b == [] then false
    else (a[0] == b[0] && IsSubsequence(a[1..], b[1..])) || IsSubsequence(a, b[1..])
  }

  /** Position of the first occurrence of `x` in `s`, or `|s|` when there is none. */
  function IndexOf<T(==)>(s: seq<T>, x: T): (k: nat)
    ensures k <= |s|
    ensures k < |s| ==> s[k] == x
    ensures forall j :: 0 <= j < k ==> s[j] != x
    ensures k == |s| <==> x !in s
  {
    if s == [] then 0 else if s[0] == x then 0 else 1 + IndexOf(s[1..], x)
  }

  /** Filtering distributes over concatenation: selection keeps order across any split point. */
  lemma {:induction false} FilterAppend<T>(a: seq<T>, b: seq<T>, f: T -> bool)
    ensures Filter(a + b, f) == Filter(a, f) + Filter(b, f)
  {
    if a == [] {
      assert a + b == b;
    } else {
      var head := if f(a[0]) then [a[0]] else [];
      assert (a + b)[0] == a[0];
      assert (a + b)[1..] == a[1..] + b;
      FilterAppend(a[1..], b, f);
      calc {
        Filter(a + b, f);
        head + Filter(a[1..] + b, f);
        head + (Filter(a[1..], f) + Filter(b, f));
        (head + Filter(a[1..], f)) + Filter(b, f);
        Filter(a, f) + Filter(b, f);
      }
    }
  }

  /** A filtered sequence is a subsequence of the original one. */
  lemma {:induction false} FilterIsSubsequence<T>(s: seq<T>, f: T -> bool)
    ensures IsSubsequence(Filter(s, f), s)
  {
    if s != [] {
      FilterIsSubsequence(s[1..], f);
      var r := Filter(s, f);
      if f(s[0]) {
        assert r == [s[0]] + Filter(s[1..], f);
        assert r[0] == s[0] && r[1..] == Filter(s[1..], f);
      } else {
        assert r == Filter(s[1..], f);
        SubsequenceOfTail(r, s);
      }
    }
  }

  /** A subsequence of the tail of `s` is a subsequence of `s`. */
  lemma SubsequenceOfTail<T>(a: seq<T>, s: seq<T>)
    requires s != [] && IsSubsequence(a, s[1..])
    ensures IsSubsequence(a, s)
  {
  }

  /** Filtering twice is filtering once by the conjunction `h` of the two tests. */
  lemma {:induction false} FilterFilter<T>(s: seq<T>, f: T -> bool, g: T -> bool, h: T -> bool)
    requires forall x :: h(x) == (f(x) && g(x))
    ensures Filter(Filter(s, f), g) == Filter(s, h)
  {
    if s != [] {
      FilterFilter(s[1..], f, g, h);
      if f(s[0]) {
        assert Filter(s, f) == [s[0]] + Filter(s[1..], f);
        FilterAppend([s[0]], Filter(s[1..], f), g);
        assert [s[0]][1..] == [];
        assert Filter([s[0]], g) == if g(s[0]) then [s[0]] else [];
      } else {
        assert Filter(s, f) == Filter(s[1..], f);
      }
      assert Filter(s, h) == (if h(s[0]) then [s[0]] else []) + Filter(s[1..], h);
    }
  }

  /** Two tests that disagree on every element of `s` split it: the two selections together
      hold every element of `s` exactly as often as `s` does, so their sizes add up to `|s|`. */
  lemma {:induction false} FilterSplit<T>(s: seq<T>, f: T -> bool, g: T -> bool)
    requires forall i :: 0 <= i < |s| ==> (f(s[i]) <==> !g(s[i]))
    ensures multiset(Filter(s, f)) + multiset(Filter(s, g)) == multiset(s)
    ensures |Filter(s, f)| + |Filter(s, g)| == |s|
  {
    if s != [] {
      FilterSplit(s[1..], f, g);
      assert s == [s[0]] + s[1..];
      assert multiset(s) == multiset{s[0]} + multiset(s[1..]);
    }
  }

  /** Filtering by a test every element passes changes nothing. */
  lemma {:induction false} FilterKeepsAll<T>(s: seq<T>, f: T -> bool)
    requires forall i :: 0 <= i < |s| ==> f(s[i])
    ensures Filter(s, f) == s
  {
    if s != [] {
      FilterKeepsAll(s[1..], f);
    }
  }

  /** Filtering by a test that rejects exactly the element at `k` removes that element. */
  lemma {:induction false} FilterDropsOne<T>(s: seq<T>, k: nat, f: T -> bool)
    requires k < |s| && !f(s[k])
    requires forall j :: 0 <= j < |s| && j != k ==> f(s[j])
    ensures Filter(s, f) == s[..k] + s[k + 1..]
  {
    var tail := s[1..];
    if k == 0 {
      FilterKeepsAll(tail, f);
      assert Filter(s, f) == Filter(tail, f);
      assert s[..0] + s[1..] == tail;
    } else {
      assert tail[k - 1] == s[k];
      FilterDropsOne(tail, k - 1, f);
      assert Filter(s, f) == [s[0]] + Filter(tail, f);
      assert s[..k] == [s[0]] + tail[..k - 1];
      assert s[k + 1..] == tail[k..];
    }
  }

  /** The concatenation, in order, of `f` applied to each element of `s`. */
  function FlatMap<A, B>(s: seq<A>, f: A -> seq<B>): seq<B>
  {
    if s == [] then [] else f(s[0]) + FlatMap(s[1..], f)
  }

  /** Flat-mapping distributes over concatenation. */
  lemma {:induction false} FlatMapAppend<A, B>(a: seq<A>, b: seq<A>, f: A -> seq<B>)
    ensures FlatMap(a + b, f) == FlatMap(a, f) + FlatMap(b, f)
  {
    if a == [] {
      assert a + b == b;
    } else {
      assert (a + b)[0] == a[0];
      assert (a + b)[1..] == a[1..] + b;
      FlatMapAppend(a[1..], b, f);
    }
  }

  /** Flat-mapping one element gives its image. */
  lemma FlatMapSingle<A, B>(x: A, f: A -> seq<B>)
    ensures FlatMap([x], f) == f(x)
  {
    assert [x][1..] == [];
  }

  /** Flat-mapping a prefix one element longer appends that element's image. */
  lemma FlatMapStep<A, B>(s: seq<A>, j: nat, f: A -> seq<B>)
    requires j < |s|
    ensures FlatMap(s[..j + 1], f) == FlatMap(s[..j], f) + f(s[j])
  {
    assert s[..j + 1] == s[..j] + [s[j]];
    FlatMapAppend(s[..j], [s[j]], f);
    FlatMapSingle(s[j], f);
  }

  /** When the test on `s` agrees position by position with a test on `t`, each selected
      element of `s` sits at a position where `t` passes. */
  lemma {:induction false} FilterFromAligned<A, B>(s: seq<A>, f: A -> bool, t: seq<B>, g: B -> bool)
    requires |s| == |t|
    requires forall i :: 0 <= i < |s| ==> (f(s[i]) <==> g(t[i]))
    ensures forall j :: 0 <= j < |Filter(s, f)| ==> exists i :: 0 <= i < |s| && Filter(s, f)[j] == s[i] && g(t[i])
  {
    if s != [] {
      FilterFromAligned(s[1..], f, t[1..], g);
      var tail := Filter(s[1..], f);
      var d := if f(s[0]) then 1 else 0;
      assert Filter(s, f) == (if f(s[0]) then [s[0]] else []) + tail;
      forall j | 0 <= j < |Filter(s, f)| ensures exists i :: 0 <= i < |s| && Filter(s, f)[j] == s[i] && g(t[i]) {
        if j < d {
          assert Filter(s, f)[j] == s[0] && g(t[0]);
        } else {
          assert Filter(s, f)[j] == tail[j - d];
          var i' :| 0 <= i' < |s| - 1 && tail[j - d] == s[1..][i'] && g(t[1..][i']);
          assert Filter(s, f)[j] == s[i' + 1] && g(t[i' + 1]);
        }
      }
    } else {
      assert |Filter(s, f)| == 0;
    }
  }

  /** Two tests that agree position by position select equally many elements. */
  lemma {:induction false} FilterCountAligned<A, B>(s: seq<A>, f: A -> bool, t: seq<B>, g: B -> bool)
    requires |s| == |t|
    requires forall i :: 0 <= i < |s| ==> (f(s[i]) <==> g(t[i]))
    ensures |Filter(s, f)| == |Filter(t, g)|
  {
    if s != [] {
      FilterCountAligned(s[1..], f, t[1..], g);
    }
  }
}
