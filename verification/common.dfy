/** Shared vocabulary: bytes, optional values and the outcome of code that can stop the process. */
module Common {

  /** An unsigned 8-bit value (Swift's UInt8, the element of Data). */
  newtype byte = b: int | 0 <= b < 256

  /** Swift's Optional. */
  datatype Option<T> = None | Some(value: T)

  /**
   * The outcome of code that contains a Swift `assert` or a runtime trap
   * (an out-of-range slice, a failing integer conversion), or that lets
   * an Objective-C exception escape: either it returns a value, or the
   * process stops. A failed `assert` is taken to stop the process, as it
   * does in a Debug build.
   */
  datatype Outcome<T> = Done(value: T) | Halt

  /** A buffer of n zero bytes, as `Data(count: n)` allocates it. */
  function Zeros(n: nat): (r: seq<byte>)
    ensures |r| == n
    ensures forall i :: 0 <= i < n ==> r[i] == 0
  {
    seq(n, _ => 0)
  }

  /** No value occurs twice in s. */
  predicate NoDuplicates<T(==)>(s: seq<T>)
  {
    forall i, j :: 0 <= i < j < |s| ==> s[i] != s[j]
  }

  /** s lists every element of wanted exactly once, and nothing else. */
  ghost predicate Enumerates(s: seq<int>, wanted: set<int>)
  {
    NoDuplicates(s) && (forall x :: x in s <==> x in wanted)
  }

  /** A duplicate-free sequence has as many elements as the set of its elements. */
  lemma {:induction false} DistinctCardinality<T>(s: seq<T>)
    requires NoDuplicates(s)
    ensures |set x | x in s| == |s|
  {
    if s != [] {
      var rest := s[1..];
      assert NoDuplicates(rest);
      DistinctCardinality(rest);
      assert s[0] !in rest;
      assert (set x | x in s) == (set x | x in rest) + {s[0]};
    }
  }

  /** A sequence is duplicate-free exactly when its multiset counts every value at most once. */
  lemma {:induction false} DistinctMultiset<T>(s: seq<T>)
    ensures NoDuplicates(s) <==> forall x :: multiset(s)[x] <= 1
  {
    if s != [] {
      var h, t := s[0], s[1..];
      assert s == [h] + t;
      DistinctMultiset(t);
      assert forall x :: multiset(s)[x] == multiset(t)[x] + (if x == h then 1 else 0);
      if forall x :: multiset(s)[x] <= 1 {
        assert forall x :: multiset(t)[x] <= 1;
        assert h !in t;
        forall i, j | 0 <= i < j < |s| ensures s[i] != s[j] {
          if i == 0 {
            assert s[j] == t[j - 1];
          } else {
            assert s[i] == t[i - 1] && s[j] == t[j - 1];
          }
        }
      }
      if NoDuplicates(s) {
        assert NoDuplicates(t) by {
          forall i, j | 0 <= i < j < |t| ensures t[i] != t[j] {
            assert t[i] == s[i + 1] && t[j] == s[j + 1];
          }
        }
        assert h !in t by {
          forall j | 0 <= j < |t| ensures t[j] != h {
            assert t[j] == s[j + 1];
          }
        }
      }
    }
  }

  /** Reordering a duplicate-free sequence leaves it duplicate-free and keeps its elements. */
  lemma PermutationKeepsEnumeration(a: seq<int>, b: seq<int>, wanted: set<int>)
    requires multiset(a) == multiset(b)
    requires Enumerates(a, wanted)
    ensures Enumerates(b, wanted)
  {
    DistinctMultiset(a);
    DistinctMultiset(b);
    assert forall x :: x in a <==> x in multiset(a);
    assert forall x :: x in b <==> x in multiset(b);
  }

  /** A set of values drawn from 0..n-1 has at most n elements. */
  lemma {:induction false} BoundedSetSize(s: set<int>, n: nat)
    requires forall x :: x in s ==> 0 <= x < n
    ensures |s| <= n
  {
    if n > 0 {
      BoundedSetSize(s - {n - 1}, n - 1);
    } else {
      assert forall x :: x !in s;
      assert s == {};
    }
  }

  /**
   * The next element a loop over a Swift dictionary or set yields: some
   * element, in an order the model leaves unspecified.
   */
  method Pick<T>(s: set<T>) returns (x: T)
    requires s != {}
    ensures x in s
  {
    x :| x in s;
  }
}
