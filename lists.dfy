// Python list operations the simulation relies on: a list of distinct
// agents, and `list.remove(x)`, which deletes the first occurrence of `x`
// and raises ValueError when `x` is absent.
module Lists {

  /** No agent appears twice in the list. */
  ghost predicate NoDup<T>(s: seq<T>) {
    forall i, j :: 0 <= i < j < |s| ==> s[i] != s[j]
  }

  /** `list.remove(x)`: the precondition is the source's ValueError. */
  function RemoveFirst<T(==)>(s: seq<T>, x: T): (r: seq<T>)
    requires x in s
    ensures |r| == |s| - 1
    ensures multiset(r) == multiset(s) - multiset{x}
  {
    assert s == [s[0]] + s[1..];
    if s[0] == x then s[1..]
    else [s[0]] + RemoveFirst(s[1..], x)
  }

  /** Removing an element from a duplicate-free list removes exactly it. */
  lemma {:induction false} RemoveFirstMembers<T>(s: seq<T>, x: T)
    requires x in s && NoDup(s)
    ensures NoDup(RemoveFirst(s, x))
    ensures forall y :: y in RemoveFirst(s, x) <==> y in s && y != x
  {
    var r := RemoveFirst(s, x);
    forall y ensures y in r <==> y in multiset(s) && y != x {
      assert y in r <==> y in multiset(r);
      if y == x {
        MultisetOfNoDup(s, x);
      }
    }
    MultisetNoDup(s);
    forall y ensures multiset(r)[y] <= 1 {
      MultisetNoDupBound(s, y);
    }
    NoDupOfMultiset(r);
  }

  /** In a duplicate-free list each element occurs once. */
  lemma {:induction false} MultisetOfNoDup<T>(s: seq<T>, x: T)
    requires NoDup(s)
    ensures multiset(s)[x] <= 1
  {
    if s != [] {
      assert s == [s[0]] + s[1..];
      assert NoDup(s[1..]) by {
        forall i, j | 0 <= i < j < |s[1..]| ensures s[1..][i] != s[1..][j] {
          assert s[1..][i] == s[i + 1] && s[1..][j] == s[j + 1];
        }
      }
      MultisetOfNoDup(s[1..], x);
      if s[0] == x {
        assert x !in s[1..] by {
          forall k | 0 <= k < |s[1..]| ensures s[1..][k] != x {
            assert s[1..][k] == s[k + 1];
          }
        }
        assert multiset(s[1..])[x] == 0;
      }
    }
  }

  lemma MultisetNoDup<T>(s: seq<T>)
    requires NoDup(s)
    ensures forall x :: multiset(s)[x] <= 1
  {
    forall x ensures multiset(s)[x] <= 1 {
      MultisetOfNoDup(s, x);
    }
  }

  lemma MultisetNoDupBound<T>(s: seq<T>, y: T)
    requires NoDup(s)
    ensures multiset(s)[y] <= 1
  {
    MultisetOfNoDup(s, y);
  }

  /** A list whose multiset has no repeated element is duplicate-free. */
  lemma {:induction false} NoDupOfMultiset<T>(s: seq<T>)
    requires forall x :: multiset(s)[x] <= 1
    ensures NoDup(s)
  {
    forall i, j | 0 <= i < j < |s| ensures s[i] != s[j] {
      var front := s[..i] + [s[i]] + s[i + 1..j];
      assert s == front + [s[j]] + s[j + 1..];
      assert multiset(front)[s[i]] >= 1;
      assert multiset(s)[s[j]] >= multiset(front)[s[j]] + 1;
    }
  }

  /** A reordering of a duplicate-free list is duplicate-free, with the same members. */
  lemma ReorderedNoDup<T>(s: seq<T>, t: seq<T>)
    requires NoDup(s) && multiset(t) == multiset(s)
    ensures NoDup(t) && |t| == |s|
    ensures forall x :: x in t <==> x in s
  {
    MultisetNoDup(s);
    NoDupOfMultiset(t);
    assert |t| == |multiset(t)| == |multiset(s)| == |s|;
    forall x ensures x in t <==> x in s {
      assert x in t <==> x in multiset(t);
      assert x in s <==> x in multiset(s);
    }
  }
}
