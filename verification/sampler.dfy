/** The sampler of the simulation.

    `pickN` shuffles an array with a randomised comparator (twice) and keeps a
    prefix of the shuffled order. The random comparator can only reorder the
    elements, so the model takes the shuffled order as an explicit parameter
    that must be a permutation of the input, and keeps its first `n` elements.
 */
module Sampler {

  /** The integers 0, 1, ..., n-1 in ascending order: the literal arrays
      handed to pickN, and the 90 draw numbers before they are shuffled. */
  function Range(n: nat): (r: seq<int>)
    ensures |r| == n
    ensures forall i :: 0 <= i < n ==> r[i] == i
  {
    seq(n, i => i)
  }

  /** The elements of Range(n) are exactly the integers of [0, n). */
  lemma RangeMembers(n: nat)
    ensures forall x :: x in Range(n) <==> 0 <= x < n
  {
    var r := Range(n);
    forall x | x in r ensures 0 <= x < n {
      var i :| 0 <= i < |r| && r[i] == x;
    }
    forall x | 0 <= x < n ensures x in r {
      assert r[x] == x;
    }
  }

  /** No element occurs twice. */
  predicate Distinct<T(==)>(s: seq<T>) {
    forall i, j :: 0 <= i < j < |s| ==> s[i] != s[j]
  }

  /** `shuffled` holds exactly the elements of `s`, in some order. */
  predicate IsPermutation<T(==)>(shuffled: seq<T>, s: seq<T>) {
    multiset(shuffled) == multiset(s)
  }

  function Min(a: nat, b: nat): nat {
    if a <= b then a else b
  }

  /** pickN(array, n): the first `n` elements of the shuffled array, or all of
      them when `n` exceeds its length (`slice` raises no error). */
  function PickN<T(==)>(s: seq<T>, shuffled: seq<T>, n: nat): (r: seq<T>)
    requires IsPermutation(shuffled, s)
    ensures |r| == Min(n, |s|)
    ensures multiset(r) <= multiset(s)
    ensures forall x :: x in r ==> x in s
    ensures Distinct(s) ==> Distinct(r)
  {
    assert |shuffled| == |multiset(shuffled)| == |s|;
    var r := shuffled[..Min(n, |shuffled|)];
    assert shuffled == r + shuffled[Min(n, |shuffled|)..];
    assert multiset(shuffled) == multiset(r) + multiset(shuffled[Min(n, |shuffled|)..]);
    SubMultiset(r, s);
    r
  }

  /** A sequence is distinct exactly when its multiset holds every element
      at most once. */
  lemma {:induction false} DistinctIffSimple<T>(s: seq<T>)
    ensures Distinct(s) <==> forall x :: multiset(s)[x] <= 1
  {
    if s == [] {
    } else {
      var t := s[1..];
      assert s == [s[0]] + t;
      assert multiset(s) == multiset{s[0]} + multiset(t);
      DistinctIffSimple(t);
      if Distinct(s) {
        assert Distinct(t) by {
          forall i, j | 0 <= i < j < |t| ensures t[i] != t[j] {
            assert t[i] == s[i + 1] && t[j] == s[j + 1];
          }
        }
        assert s[0] !in t by {
          forall k | 0 <= k < |t| ensures t[k] != s[0] {
            assert t[k] == s[k + 1];
          }
        }
        assert multiset(t)[s[0]] == 0;
        forall x ensures multiset(s)[x] <= 1 {
          if x == s[0] {
          } else {
            assert multiset(s)[x] == multiset(t)[x];
          }
        }
      } else if forall x :: multiset(s)[x] <= 1 {
        assert multiset(t)[s[0]] == 0 by {
          assert multiset(s)[s[0]] == 1 + multiset(t)[s[0]];
        }
        assert forall x :: multiset(t)[x] <= multiset(s)[x];
        assert Distinct(t);
        forall i, j | 0 <= i < j < |s| ensures s[i] != s[j] {
          if i == 0 {
            assert s[j] == t[j - 1];
            assert s[j] in multiset(t);
          } else {
            assert s[i] == t[i - 1] && s[j] == t[j - 1];
          }
        }
        assert false;
      }
    }
  }

  /** What a sequence whose elements are drawn from `s` inherits from it. */
  lemma SubMultiset<T>(r: seq<T>, s: seq<T>)
    requires multiset(r) <= multiset(s)
    ensures forall x :: x in r ==> x in s
    ensures Distinct(s) ==> Distinct(r)
  {
    assert forall x :: x in r ==> x in multiset(s);
    DistinctIffSimple(s);
    DistinctIffSimple(r);
    assert forall x :: multiset(r)[x] <= multiset(s)[x];
  }

  /** A distinct sequence has as many distinct elements as it has entries. */
  lemma {:induction false} DistinctCardinality<T>(s: seq<T>)
    requires Distinct(s)
    ensures |set x | x in s| == |s|
  {
    if s != [] {
      var t := s[1..];
      assert Distinct(t) by {
        forall i, j | 0 <= i < j < |t| ensures t[i] != t[j] {
          assert t[i] == s[i + 1] && t[j] == s[j + 1];
        }
      }
      DistinctCardinality(t);
      assert s[0] !in t by {
        forall k | 0 <= k < |t| ensures t[k] != s[0] {
          assert t[k] == s[k + 1];
        }
      }
      assert (set x | x in s) == (set x | x in t) + {s[0]};
    }
  }

  /** The elements of a permutation of [0, n) are distinct and lie in [0, n). */
  lemma PermutationOfRange(shuffled: seq<int>, n: nat)
    requires IsPermutation(shuffled, Range(n))
    ensures Distinct(shuffled)
    ensures forall x :: x in shuffled <==> 0 <= x < n
  {
    var r := Range(n);
    assert Distinct(r);
    DistinctIffSimple(r);
    DistinctIffSimple(shuffled);
    RangeMembers(n);
    forall x | x in shuffled ensures 0 <= x < n {
      assert x in multiset(r);
    }
    forall x | 0 <= x < n ensures x in shuffled {
      assert x in r;
      assert x in multiset(r);
      assert x in multiset(shuffled);
    }
  }
}
