/** The sorted arrangement of some reals: it exists, and it is the only one. */
module Sorting {

  predicate IsSorted(s: seq<real>)
  {
    forall i, j | 0 <= i < j < |s| :: s[i] <= s[j]
  }

  function Insert(s: seq<real>, x: real): (r: seq<real>)
    requires IsSorted(s)
    ensures IsSorted(r) && multiset(r) == multiset(s) + multiset{x}
    ensures |r| == |s| + 1
  {
    if s == [] || s[|s| - 1] <= x then
      assert s + [x] != [];
      s + [x]
    else
      var n := |s| - 1;
      assert s == s[..n] + [s[n]];
      var r := Insert(s[..n], x);
      assert forall i | 0 <= i < |r| :: r[i] <= s[n] by {
        forall i | 0 <= i < |r| ensures r[i] <= s[n] {
          assert r[i] in multiset(r);
          assert r[i] in s[..n] || r[i] == x;
        }
      }
      r + [s[n]]
  }

  /** `sort_by(total_cmp)` on finite values. */
  function Sorted(s: seq<real>): (r: seq<real>)
    ensures IsSorted(r) && multiset(r) == multiset(s) && |r| == |s|
  {
    if s == [] then []
    else
      assert s == s[..|s| - 1] + [s[|s| - 1]];
      Insert(Sorted(s[..|s| - 1]), s[|s| - 1])
  }

  /** The last element of a sorted sequence is its greatest; the rest is what remains without it. */
  lemma SortedLast(s: seq<real>)
    requires IsSorted(s) && s != []
    ensures s[|s| - 1] in multiset(s) && forall y | y in multiset(s) :: y <= s[|s| - 1]
    ensures multiset(s[..|s| - 1]) == multiset(s) - multiset{s[|s| - 1]}
  {
    assert s == s[..|s| - 1] + [s[|s| - 1]];
    forall y | y in multiset(s) ensures y <= s[|s| - 1] { assert y in s; }
  }

  lemma SameLast(a: seq<real>, b: seq<real>)
    requires IsSorted(a) && IsSorted(b) && multiset(a) == multiset(b) && a != [] && b != []
    ensures a[|a| - 1] == b[|b| - 1]
    ensures multiset(a[..|a| - 1]) == multiset(b[..|b| - 1])
  {
    SortedLast(a);
    SortedLast(b);
    hide IsSorted;
    assert a[|a| - 1] <= b[|b| - 1] && b[|b| - 1] <= a[|a| - 1];
  }

  lemma {:induction false} SortedIsUnique(a: seq<real>, b: seq<real>)
    requires IsSorted(a) && IsSorted(b) && multiset(a) == multiset(b)
    ensures a == b
  {
    assert |a| == |multiset(a)| && |b| == |multiset(b)|;
    if a != [] {
      SameLast(a, b);
      SortedIsUnique(a[..|a| - 1], b[..|b| - 1]);
      assert a == a[..|a| - 1] + [a[|a| - 1]] && b == b[..|b| - 1] + [b[|b| - 1]];
    }
  }

  /** Any sorted rearrangement is the one `Sorted` gives. */
  lemma SortedDependsOnTheMultisetOnly(a: seq<real>, b: seq<real>)
    requires multiset(a) == multiset(b)
    ensures Sorted(a) == Sorted(b)
    ensures IsSorted(b) ==> Sorted(a) == b
  {
    SortedIsUnique(Sorted(a), Sorted(b));
    if IsSorted(b) { SortedIsUnique(Sorted(a), b); }
  }
}
