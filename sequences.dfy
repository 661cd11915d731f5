/** Order-preserving selection over sequences. Every deletion the cleaning
    routine performs (spaces from a header, rows of another region, rows
    holding the missing-value marker, characters outside the value class) is
    an instance of Filter with a different predicate. */
module Sequences {

  /** The elements of `s` that satisfy `p`, in their original order. */
  function Filter<T>(s: seq<T>, p: T -> bool): (r: seq<T>)
    ensures |r| <= |s|
    ensures forall i :: 0 <= i < |r| ==> p(r[i])
  {
    if s == [] then []
    else if p(s[0]) then [s[0]] + Filter(s[1..], p)
    else Filter(s[1..], p)
  }

  /** How many elements of `s` satisfy `p`. */
  function Count<T>(s: seq<T>, p: T -> bool): nat
  {
    if s == [] then 0
    else (if p(s[0]) then 1 else 0) + Count(s[1..], p)
  }

  /** `t` can be obtained from `s` by deleting elements. */
  predicate IsSubsequence<T(==)>(t: seq<T>, s: seq<T>)
    decreases |s|
  {
    if t == [] then true
    else if s == [] then false
    else if t[0] == s[0] then IsSubsequence(t[1..], s[1..])
    else IsSubsequence(t, s[1..])
  }

  /** Filter keeps exactly as many elements as satisfy the predicate. */
  lemma {:induction false} FilterLength<T>(s: seq<T>, p: T -> bool)
    ensures |Filter(s, p)| == Count(s, p)
  {
    if s != [] {
      FilterLength(s[1..], p);
    }
  }

  /** An element is kept if and only if it occurs in the input and satisfies
      the predicate. */
  lemma {:induction false} FilterMembership<T>(s: seq<T>, p: T -> bool, x: T)
    ensures x in Filter(s, p) <==> x in s && p(x)
  {
    if s != [] {
      FilterMembership(s[1..], p, x);
      assert x in s <==> x == s[0] || x in s[1..] by {
        assert s == [s[0]] + s[1..];
      }
    }
  }

  /** Every occurrence of an element satisfying the predicate survives, and
      every occurrence of any other element is removed. */
  lemma {:induction false} FilterMultiplicity<T>(s: seq<T>, p: T -> bool, x: T)
    ensures multiset(Filter(s, p))[x] == if p(x) then multiset(s)[x] else 0
  {
    if s != [] {
      FilterMultiplicity(s[1..], p, x);
      assert s == [s[0]] + s[1..];
      assert multiset(s) == multiset([s[0]]) + multiset(s[1..]);
      if p(s[0]) {
        assert multiset(Filter(s, p)) == multiset([s[0]]) + multiset(Filter(s[1..], p));
      }
    }
  }

  /** Filtering a concatenation filters each part. */
  lemma {:induction false} FilterConcat<T>(a: seq<T>, b: seq<T>, p: T -> bool)
    ensures Filter(a + b, p) == Filter(a, p) + Filter(b, p)
  {
    if a != [] {
      assert (a + b)[1..] == a[1..] + b;
      FilterConcat(a[1..], b, p);
    } else {
      assert a + b == b;
    }
  }

  /** Counting a concatenation adds the counts of the parts. */
  lemma {:induction false} CountConcat<T>(a: seq<T>, b: seq<T>, p: T -> bool)
    ensures Count(a + b, p) == Count(a, p) + Count(b, p)
  {
    if a != [] {
      assert (a + b)[1..] == a[1..] + b;
      CountConcat(a[1..], b, p);
    } else {
      assert a + b == b;
    }
  }

  /** Elements satisfying `p` and elements satisfying its negation `q`
      together make up the whole sequence. */
  lemma {:induction false} CountComplement<T>(s: seq<T>, p: T -> bool, q: T -> bool)
    requires forall x :: q(x) == !p(x)
    ensures Count(s, p) + Count(s, q) == |s|
  {
    if s != [] {
      CountComplement(s[1..], p, q);
    }
  }

  /** Filter changes nothing exactly when every element already satisfies
      the predicate. */
  lemma {:induction false} FilterUnchanged<T>(s: seq<T>, p: T -> bool)
    ensures Filter(s, p) == s <==> forall i :: 0 <= i < |s| ==> p(s[i])
  {
    if s != [] {
      FilterUnchanged(s[1..], p);
      if !p(s[0]) {
        assert |Filter(s, p)| < |s| by {
          assert Filter(s, p) == Filter(s[1..], p);
        }
      } else if forall i :: 0 <= i < |s| ==> p(s[i]) {
        assert forall i :: 0 <= i < |s[1..]| ==> p(s[1..][i]) by {
          forall i | 0 <= i < |s[1..]| ensures p(s[1..][i]) {
            assert s[1..][i] == s[i + 1];
          }
        }
      }
    }
  }

  /** Filtering twice with the same predicate is filtering once. */
  lemma FilterIdempotent<T>(s: seq<T>, p: T -> bool)
    ensures Filter(Filter(s, p), p) == Filter(s, p)
  {
    FilterUnchanged(Filter(s, p), p);
  }

  /** What Filter returns can be obtained from its input by deletions. */
  lemma {:induction false} FilterIsSubsequence<T>(s: seq<T>, p: T -> bool)
    ensures IsSubsequence(Filter(s, p), s)
  {
    if s != [] {
      FilterIsSubsequence(s[1..], p);
      var rest := Filter(s[1..], p);
      if p(s[0]) {
        assert Filter(s, p) == [s[0]] + rest;
        assert ([s[0]] + rest)[1..] == rest;
      } else if rest != [] {
        assert p(rest[0]);
        assert rest[0] != s[0];
      }
    }
  }

  /** Filter is the unique longest subsequence of `s` whose elements all
      satisfy `p`: no other such subsequence is as long. */
  lemma {:induction false} FilterLongest<T>(s: seq<T>, p: T -> bool, t: seq<T>)
    requires IsSubsequence(t, s)
    requires forall i :: 0 <= i < |t| ==> p(t[i])
    ensures |t| <= |Filter(s, p)|
    ensures |t| == |Filter(s, p)| ==> t == Filter(s, p)
  {
    if s == [] {
    } else if t == [] {
      if p(s[0]) {
        assert |Filter(s, p)| >= 1;
      }
    } else {
      var rest := Filter(s[1..], p);
      assert forall i :: 0 <= i < |t[1..]| ==> p(t[1..][i]) by {
        forall i | 0 <= i < |t[1..]| ensures p(t[1..][i]) {
          assert t[1..][i] == t[i + 1];
        }
      }
      if t[0] == s[0] {
        assert p(t[0]);
        FilterLongest(s[1..], p, t[1..]);
        assert Filter(s, p) == [s[0]] + rest;
        if |t| == |Filter(s, p)| {
          assert t == [t[0]] + t[1..];
        }
      } else {
        FilterLongest(s[1..], p, t);
        if p(s[0]) {
          assert Filter(s, p) == [s[0]] + rest;
        }
      }
    }
  }
}
