// Helpers shared by every module of the graph library model: optional values,
// results with an error, the sentinels the library uses, and a few counting facts.
module Util {

  datatype Option<T> = None | Some(value: T)

  // A computation that either yields a value or fails with an error, the
  // library's exceptions become the error alternative.
  datatype Result<T, Err> = Ok(value: T) | Fail(error: Err)

  // ~vertex_index_t{}: the largest std::size_t, used as "no predecessor".
  const NoPredecessor: nat := 0xFFFF_FFFF_FFFF_FFFF

  // std::numeric_limits<unsigned int>::max(): the breadth-first "infinite" distance.
  const UintInfinity: nat := 0xFFFF_FFFF

  // std::numeric_limits<int>::max(): the "infinite" distance of a shortest-path
  // table whose distances are plain ints.
  const IntInfinity: int := 0x7FFF_FFFF

  // std::min and std::max on indices.
  function Min(a: nat, b: nat): nat { if a <= b then a else b }
  function Max(a: nat, b: nat): nat { if a <= b then b else a }

  // The elements of s are pairwise distinct.
  predicate Distinct<T(==)>(s: seq<T>)
  {
    forall i, j :: 0 <= i < j < |s| ==> s[i] != s[j]
  }

  // The natural numbers below n, as a set.
  function Below(n: nat): (r: set<nat>)
    ensures forall x: nat :: x in r <==> x < n
  {
    if n == 0 then {} else Below(n - 1) + {n - 1}
  }

  // Number of true entries.
  function CountTrue(s: seq<bool>): (r: nat)
    ensures r <= |s|
  {
    if s == [] then 0 else (if s[0] then 1 else 0) + CountTrue(s[1..])
  }

  lemma {:induction false} BelowCard(n: nat)
    ensures |Below(n)| == n
  {
    if n > 0 {
      BelowCard(n - 1);
    }
  }

  // A subset is no larger than its superset.
  lemma {:induction false} SubsetCard<T>(a: set<T>, b: set<T>)
    requires a <= b
    ensures |a| <= |b|
  {
    if a != {} {
      var x :| x in a;
      SubsetCard(a - {x}, b - {x});
    }
  }

  // Setting a false entry to true removes exactly one from the false count.
  lemma {:induction false} CountTrueSet(s: seq<bool>, i: nat)
    requires i < |s| && !s[i]
    ensures CountTrue(s[i := true]) == CountTrue(s) + 1
  {
    if i > 0 {
      assert s[i := true][1..] == s[1..][i - 1 := true];
      CountTrueSet(s[1..], i - 1);
    } else {
      assert s[i := true][1..] == s[1..];
    }
  }

  lemma {:induction false} CountTrueAll(n: nat)
    ensures CountTrue(seq(n, _ => true)) == n
    ensures CountTrue(seq(n, _ => false)) == 0
  {
    if n > 0 {
      assert seq(n, _ => true)[1..] == seq(n - 1, _ => true);
      assert seq(n, _ => false)[1..] == seq(n - 1, _ => false);
      CountTrueAll(n - 1);
    }
  }

  // A distinct sequence has as many elements as its set of elements.
  lemma {:induction false} DistinctCard<T>(s: seq<T>)
    requires Distinct(s)
    ensures |set x | x in s| == |s|
  {
    if s != [] {
      var t := s[..|s| - 1];
      assert Distinct(t);
      DistinctCard(t);
      assert (set x | x in s) == (set x | x in t) + {s[|s| - 1]};
      assert s[|s| - 1] !in (set x | x in t);
    }
  }

  // A distinct sequence of numbers below n has at most n elements.
  lemma DistinctBounded(s: seq<nat>, n: nat)
    requires Distinct(s)
    requires forall i :: 0 <= i < |s| ==> s[i] < n
    ensures |s| <= n
  {
    DistinctCard(s);
    BelowCard(n);
    SubsetCard((set x | x in s), Below(n));
  }

  // n distinct numbers below n are all of them: remove the occurrence of
  // n - 1 (it must be there, or the n numbers would fit below n - 1) and
  // recurse on the rest.
  lemma {:induction false} DistinctCovers(s: seq<nat>, n: nat)
    requires |s| == n && Distinct(s) && forall i :: 0 <= i < |s| ==> s[i] < n
    ensures forall t: nat :: t < n ==> t in s
    decreases n
  {
    if n > 0 {
      if n - 1 !in s {
        assert forall i :: 0 <= i < |s| ==> s[i] < n - 1;
        DistinctBounded(s, n - 1);
      } else {
        var k :| 0 <= k < |s| && s[k] == n - 1;
        var rest := s[..k] + s[k + 1..];
        DropTop(s, k, n);
        DistinctCovers(rest, n - 1);
        forall t: nat | t < n
          ensures t in s
        {
          if t < n - 1 {
            assert t in rest;
          }
        }
      }
    }
  }

  // Removing the occurrence of n - 1 leaves distinct numbers below n - 1,
  // each of them from the original sequence.
  lemma DropTop(s: seq<nat>, k: nat, n: nat)
    requires k < |s| && s[k] == n - 1 && Distinct(s) && forall i :: 0 <= i < |s| ==> s[i] < n
    ensures var rest := s[..k] + s[k + 1..];
      && |rest| == |s| - 1 && Distinct(rest)
      && (forall i :: 0 <= i < |rest| ==> rest[i] < n - 1)
      && forall t :: t in rest ==> t in s
  {
    var rest := s[..k] + s[k + 1..];
    assert forall i :: 0 <= i < |rest| ==> rest[i] == if i < k then s[i] else s[i + 1];
  }

  // A distinct sequence of numbers below n has n elements exactly when it
  // holds every number below n.
  lemma CoverCount(s: seq<nat>, n: nat)
    requires Distinct(s) && forall i :: 0 <= i < |s| ==> s[i] < n
    ensures |s| == n <==> forall t: nat :: t < n ==> t in s
  {
    DistinctBounded(s, n);
    if |s| == n {
      DistinctCovers(s, n);
    } else if forall t: nat :: t < n ==> t in s {
      DistinctCard(s);
      BelowCard(n);
      SubsetCard(Below(n), set x | x in s);
    }
  }

  // The image of a set under a function that is injective on it has the same size.
  lemma {:induction false} InjectiveImageCard<B>(s: set<nat>, f: nat -> B)
    requires forall x, y :: x in s && y in s && f(x) == f(y) ==> x == y
    ensures |set x | x in s :: f(x)| == |s|
  {
    if s != {} {
      var x :| x in s;
      var rest := s - {x};
      InjectiveImageCard(rest, f);
      assert (set y | y in s :: f(y)) == (set y | y in rest :: f(y)) + {f(x)};
      assert f(x) !in (set y | y in rest :: f(y));
    }
  }

  // A set of pairs closed under swapping and free of diagonal pairs has even size.
  lemma {:induction false} SwapClosedEven(S: set<(nat, nat)>)
    requires forall p :: p in S ==> p.0 != p.1 && (p.1, p.0) in S
    ensures |S| % 2 == 0
  {
    if S != {} {
      var p :| p in S;
      var q := (p.1, p.0);
      var rest := S - {p, q};
      assert forall r :: r in rest ==> r.0 != r.1 && (r.1, r.0) in rest;
      SwapClosedEven(rest);
      assert p != q;
      assert |S| == |rest| + 2;
    }
  }
}
