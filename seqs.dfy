/**
 * Sequence helpers shared by the front-end derivations: counting, filtering
 * (JavaScript's `Array.prototype.filter`), summing and order-preserving
 * sub-sequences.  Recursion peels the LAST element so that a loop over
 * `s[..i]` can use these functions directly in its invariants.
 */
module Seqs {

  datatype Option<T> = None | Some(value: T) {
    function GetOr(default: T): T {
      match this
      case Some(v) => v
      case None => default
    }
  }

  /**
   * `response.data.content || []`: the list a page loader takes from a
   * loaded page.  A page without content gives the empty list; what a
   * failed request leaves is up to each loader.
   */
  function PageContent<T>(content: Option<seq<T>>): (r: seq<T>)
    ensures content.None? ==> r == []
    ensures content.Some? ==> r == content.value
  {
    content.GetOr([])
  }

  /** Number of elements of `s` that satisfy `p`. */
  function Count<T>(s: seq<T>, p: T -> bool): (n: nat)
    ensures n <= |s|
    ensures n == 0 <==> (forall i :: 0 <= i < |s| ==> !p(s[i]))
    ensures n == |s| <==> (forall i :: 0 <= i < |s| ==> p(s[i]))
  {
    if s == [] then 0
    else
      var n0 := Count(s[..|s| - 1], p);
      assert forall i :: 0 <= i < |s| - 1 ==> s[..|s| - 1][i] == s[i];
      n0 + (if p(s[|s| - 1]) then 1 else 0)
  }

  lemma {:induction false} CountAppend<T>(a: seq<T>, b: seq<T>, p: T -> bool)
    ensures Count(a + b, p) == Count(a, p) + Count(b, p)
  {
    if b == [] {
      assert a + b == a;
    } else {
      assert (a + b)[..|a + b| - 1] == a + b[..|b| - 1];
      CountAppend(a, b[..|b| - 1], p);
    }
  }

  /** Two predicates that never hold together count at most the length together. */
  lemma {:induction false} CountDisjoint<T>(s: seq<T>, p: T -> bool, q: T -> bool)
    requires forall x :: !(p(x) && q(x))
    ensures Count(s, p) + Count(s, q) <= |s|
  {
    if s != [] {
      CountDisjoint(s[..|s| - 1], p, q);
    }
  }

  /** Counting is monotone in the predicate. */
  lemma {:induction false} CountMonotone<T>(s: seq<T>, p: T -> bool, q: T -> bool)
    requires forall x :: p(x) ==> q(x)
    ensures Count(s, p) <= Count(s, q)
  {
    if s != [] {
      CountMonotone(s[..|s| - 1], p, q);
    }
  }

  /** The keys of the elements of `s` that satisfy `p`. */
  function KeysWhere<T, K>(s: seq<T>, key: T -> K, p: T -> bool): set<K>
  {
    set i | 0 <= i < |s| && p(s[i]) :: key(s[i])
  }

  /** The keys of `s` are those of all but its last element, plus the last one's if it counts. */
  lemma KeysWhereStep<T, K>(s: seq<T>, key: T -> K, p: T -> bool)
    requires s != []
    ensures KeysWhere(s, key, p)
         == KeysWhere(s[..|s| - 1], key, p) + (if p(s[|s| - 1]) then {key(s[|s| - 1])} else {})
  {
    var init := s[..|s| - 1];
    forall y | y in KeysWhere(s, key, p)
      ensures y in KeysWhere(init, key, p) || (p(s[|s| - 1]) && y == key(s[|s| - 1]))
    {
      var i :| 0 <= i < |s| && p(s[i]) && key(s[i]) == y;
      if i < |init| {
        assert init[i] == s[i];
      }
    }
    forall y | y in KeysWhere(init, key, p)
      ensures y in KeysWhere(s, key, p)
    {
      var i :| 0 <= i < |init| && p(init[i]) && key(init[i]) == y;
      assert s[i] == init[i];
    }
  }

  /** When no two elements share a key, the elements satisfying `p` are as many as their keys. */
  lemma {:induction false} CountDistinctKeys<T, K>(s: seq<T>, key: T -> K, p: T -> bool)
    requires forall i, j :: 0 <= i < j < |s| ==> key(s[i]) != key(s[j])
    ensures Count(s, p) == |KeysWhere(s, key, p)|
  {
    if s != [] {
      var init, x := s[..|s| - 1], s[|s| - 1];
      assert forall i, j :: 0 <= i < j < |init| ==> key(init[i]) != key(init[j]) by {
        assert forall i :: 0 <= i < |init| ==> init[i] == s[i];
      }
      CountDistinctKeys(init, key, p);
      KeysWhereStep(s, key, p);
      forall i | 0 <= i < |init|
        ensures key(init[i]) != key(x)
      {
        assert init[i] == s[i];
      }
      assert key(x) !in KeysWhere(init, key, p);
    }
  }

  /** `a` is `b` with some elements dropped, the rest kept in order. */
  ghost predicate IsSubsequence<T>(a: seq<T>, b: seq<T>)
    decreases |b|
  {
    if a == [] then true
    else if b == [] then false
    else if a[|a| - 1] == b[|b| - 1] then IsSubsequence(a[..|a| - 1], b[..|b| - 1])
    else IsSubsequence(a, b[..|b| - 1])
  }

  lemma {:induction false} SubsequenceRefl<T>(s: seq<T>)
    ensures IsSubsequence(s, s)
  {
    if s != [] {
      SubsequenceRefl(s[..|s| - 1]);
    }
  }

  /** JavaScript's `filter`: the elements satisfying `p`, in their original order. */
  function Filter<T(==)>(s: seq<T>, p: T -> bool): (r: seq<T>)
    ensures |r| == Count(s, p)
    ensures forall i :: 0 <= i < |r| ==> p(r[i]) && r[i] in s
    ensures forall i :: 0 <= i < |s| && p(s[i]) ==> s[i] in r
    ensures IsSubsequence(r, s)
  {
    if s == [] then []
    else
      var r0 := Filter(s[..|s| - 1], p);
      assert forall i :: 0 <= i < |s| - 1 ==> s[..|s| - 1][i] == s[i];
      if p(s[|s| - 1]) then
        assert (r0 + [s[|s| - 1]])[..|r0|] == r0;
        r0 + [s[|s| - 1]]
      else r0
  }

  /** When every element passes, filtering changes nothing. */
  lemma {:induction false} FilterAll<T>(s: seq<T>, p: T -> bool)
    requires forall i :: 0 <= i < |s| ==> p(s[i])
    ensures Filter(s, p) == s
  {
    if s != [] {
      var init, x := s[..|s| - 1], s[|s| - 1];
      assert forall i :: 0 <= i < |init| ==> init[i] == s[i];
      FilterAll(init, p);
      assert p(x) && Filter(s, p) == Filter(init, p) + [x];
      assert init + [x] == s;
    }
  }

  /** Filtering with two predicates that agree on every element gives the same result. */
  lemma {:induction false} FilterCongruent<T>(s: seq<T>, p: T -> bool, q: T -> bool)
    requires forall i :: 0 <= i < |s| ==> p(s[i]) == q(s[i])
    ensures Filter(s, p) == Filter(s, q)
  {
    if s != [] {
      FilterCongruent(s[..|s| - 1], p, q);
    }
  }

  /** Sum of `f` over the elements of `s`. */
  function Sum<T>(s: seq<T>, f: T -> int): int
  {
    if s == [] then 0 else Sum(s[..|s| - 1], f) + f(s[|s| - 1])
  }

  lemma {:induction false} SumAppend<T>(a: seq<T>, b: seq<T>, f: T -> int)
    ensures Sum(a + b, f) == Sum(a, f) + Sum(b, f)
  {
    if b == [] {
      assert a + b == a;
    } else {
      assert (a + b)[..|a + b| - 1] == a + b[..|b| - 1];
      SumAppend(a, b[..|b| - 1], f);
    }
  }

  /** Replacing one element changes the sum by the difference. */
  lemma {:induction false} SumUpdate<T>(s: seq<T>, k: nat, x: T, f: T -> int)
    requires k < |s|
    ensures Sum(s[k := x], f) == Sum(s, f) - f(s[k]) + f(x)
  {
    if k == |s| - 1 {
      assert s[k := x][..|s| - 1] == s[..|s| - 1];
    } else {
      SumUpdate(s[..|s| - 1], k, x, f);
      assert s[k := x][..|s| - 1] == s[..|s| - 1][k := x];
    }
  }

  /** A sum of terms that are each at least 1 is at least the length. */
  lemma {:induction false} SumAtLeastLength<T>(s: seq<T>, f: T -> int)
    requires forall i :: 0 <= i < |s| ==> f(s[i]) >= 1
    ensures Sum(s, f) >= |s|
  {
    if s != [] {
      SumAtLeastLength(s[..|s| - 1], f);
    }
  }

  /** JavaScript's `map`: one output per input, in the same order. */
  function Map<T, U>(s: seq<T>, f: T -> U): (r: seq<U>)
    ensures |r| == |s|
    ensures forall i :: 0 <= i < |s| ==> r[i] == f(s[i])
  {
    seq(|s|, i requires 0 <= i < |s| => f(s[i]))
  }

  /** The set of values `f` takes on the elements of `s` (`new Set(s.map(f))`). */
  function Image<T, U>(s: seq<T>, f: T -> U): (r: set<U>)
    ensures forall i :: 0 <= i < |s| ==> f(s[i]) in r
  {
    set i | 0 <= i < |s| :: f(s[i])
  }

  /** There are at most as many distinct values as elements. */
  lemma {:induction false} ImageCard<T, U>(s: seq<T>, f: T -> U)
    ensures |Image(s, f)| <= |s|
  {
    if s != [] {
      var init := s[..|s| - 1];
      ImageCard(init, f);
      assert Image(s, f) == Image(init, f) + {f(s[|s| - 1])} by {
        forall y | y in Image(s, f)
          ensures y in Image(init, f) + {f(s[|s| - 1])}
        {
          var i :| 0 <= i < |s| && f(s[i]) == y;
          if i < |s| - 1 {
            assert init[i] == s[i];
          }
        }
      }
    }
  }

  /** No value occurs twice. */
  predicate NoDuplicates<T(==)>(s: seq<T>)
  {
    forall i, j :: 0 <= i < j < |s| ==> s[i] != s[j]
  }

  /** The distinct elements of a duplicate-free sequence are as many as its length. */
  lemma {:induction false} NoDuplicatesCard<T>(s: seq<T>)
    requires NoDuplicates(s)
    ensures |set i | 0 <= i < |s| :: s[i]| == |s|
  {
    if s != [] {
      var t := s[..|s| - 1];
      NoDuplicatesCard(t);
      var st := set i | 0 <= i < |t| :: t[i];
      var ss := set i | 0 <= i < |s| :: s[i];
      assert ss == st + {s[|s| - 1]};
      assert s[|s| - 1] !in st;
    }
  }
}
