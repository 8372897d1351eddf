/** Sorting by an order given as a function, and the lexicographic order on lists of integers:
    what `list.sort` and `sorted` do in the scripts. */
module Sorting {

  ghost predicate IsOrder<T(!new)>(le: (T, T) -> bool) {
    && (forall a, b :: le(a, b) || le(b, a))
    && (forall a, b, c :: le(a, b) && le(b, c) ==> le(a, c))
  }

  ghost predicate IsSorted<T(!new)>(le: (T, T) -> bool, s: seq<T>) {
    forall i, j :: 0 <= i < j < |s| ==> le(s[i], s[j])
  }

  /** x behind every element of a sorted list that does not come after it. */
  function Inserted<T>(le: (T, T) -> bool, sorted: seq<T>, x: T): seq<T> {
    if sorted == [] then [x]
    else
      var last := sorted[|sorted| - 1];
      if le(last, x) then sorted + [x] else Inserted(le, sorted[..|sorted| - 1], x) + [last]
  }

  function Sorted<T>(le: (T, T) -> bool, s: seq<T>): seq<T> {
    if s == [] then [] else Inserted(le, Sorted(le, s[..|s| - 1]), s[|s| - 1])
  }

  lemma {:induction false} InsertedKeepsMembers<T(!new)>(le: (T, T) -> bool, sorted: seq<T>, x: T)
    ensures multiset(Inserted(le, sorted, x)) == multiset(sorted) + multiset{x}
  {
    if sorted != [] {
      var init, last := sorted[..|sorted| - 1], sorted[|sorted| - 1];
      assert sorted == init + [last];
      if !le(last, x) {
        InsertedKeepsMembers(le, init, x);
      }
    }
  }

  lemma InsertedMember<T(!new)>(le: (T, T) -> bool, sorted: seq<T>, x: T, k: nat)
    requires k < |Inserted(le, sorted, x)|
    ensures Inserted(le, sorted, x)[k] == x || Inserted(le, sorted, x)[k] in sorted
  {
    InsertedKeepsMembers(le, sorted, x);
    var r := Inserted(le, sorted, x);
    assert r[k] in multiset(r);
  }

  lemma {:induction false} InsertedIsSorted<T(!new)>(le: (T, T) -> bool, sorted: seq<T>, x: T)
    requires IsOrder(le) && IsSorted(le, sorted)
    ensures IsSorted(le, Inserted(le, sorted, x))
  {
    if sorted != [] {
      var init, last := sorted[..|sorted| - 1], sorted[|sorted| - 1];
      if le(last, x) {
        forall i | 0 <= i < |sorted| ensures le(sorted[i], x) {
          assert i < |sorted| - 1 ==> le(sorted[i], last);
        }
      } else {
        InsertedIsSorted(le, init, x);
        var rest := Inserted(le, init, x);
        forall k | 0 <= k < |rest| ensures le(rest[k], last) {
          InsertedMember(le, init, x, k);
        }
      }
    }
  }

  /** The result is a sorted rearrangement of the list. */
  lemma {:induction false} SortedIsSortedPermutation<T(!new)>(le: (T, T) -> bool, s: seq<T>)
    requires IsOrder(le)
    ensures IsSorted(le, Sorted(le, s)) && multiset(Sorted(le, s)) == multiset(s)
  {
    hide Inserted, IsOrder, IsSorted;
    if s == [] {
      NothingIsSorted(le, Sorted(le, s));
    } else {
      var init, last := s[..|s| - 1], s[|s| - 1];
      SortedIsSortedPermutation(le, init);
      InsertedIsSorted(le, Sorted(le, init), last);
      InsertedKeepsMembers(le, Sorted(le, init), last);
      assert s == init + [last];
    }
  }

  lemma NothingIsSorted<T(!new)>(le: (T, T) -> bool, s: seq<T>)
    requires s == []
    ensures IsSorted(le, s)
  {
  }

  // ---- Uniqueness ------------------------------------------------------------------

  /** No two different elements of the list are equivalent in the order. */
  ghost predicate Separates<T(!new)>(le: (T, T) -> bool, s: seq<T>) {
    forall a, b :: a in s && b in s && le(a, b) && le(b, a) ==> a == b
  }

  /** Two sorted arrangements of the same elements agree when the order separates them. */
  lemma {:induction false} SortedIsUnique<T(!new)>(le: (T, T) -> bool, a: seq<T>, b: seq<T>)
    requires IsSorted(le, a) && IsSorted(le, b) && multiset(a) == multiset(b) && Separates(le, a)
    ensures a == b
  {
    hide *;
    SameSize(a, b);
    if a != [] {
      FirstsAgree(le, a, b);
      TailsAgree(a, b);
      TailKeeps(le, a);
      TailKeeps(le, b);
      TailSeparates(le, a);
      SortedIsUnique(le, a[1..], b[1..]);
      SameFromTails(a, b);
    }
  }

  lemma SameFromTails<T>(a: seq<T>, b: seq<T>)
    requires a != [] && b != [] && a[0] == b[0] && a[1..] == b[1..]
    ensures a == b
  {
    assert a == [a[0]] + a[1..] && b == [b[0]] + b[1..];
  }

  lemma TailsAgree<T>(a: seq<T>, b: seq<T>)
    requires a != [] && b != [] && a[0] == b[0] && multiset(a) == multiset(b)
    ensures multiset(a[1..]) == multiset(b[1..])
  {
    TailMultiset(a);
    TailMultiset(b);
  }

  lemma FirstsAgree<T(!new)>(le: (T, T) -> bool, a: seq<T>, b: seq<T>)
    requires IsSorted(le, a) && IsSorted(le, b) && multiset(a) == multiset(b) && Separates(le, a)
    requires a != [] && b != []
    ensures a[0] == b[0]
  {
    hide IsSorted;
    SameMembers(a, b);
    LeastIsFirst(le, a, b[0]);
    LeastIsFirst(le, b, a[0]);
  }

  lemma LeastIsFirst<T(!new)>(le: (T, T) -> bool, s: seq<T>, x: T)
    requires IsSorted(le, s) && x in s
    ensures s[0] == x || le(s[0], x)
  {
    var i :| 0 <= i < |s| && s[i] == x;
  }

  lemma TailMultiset<T>(a: seq<T>)
    requires a != []
    ensures multiset(a[1..]) == multiset(a) - multiset{a[0]}
  {
    assert a == [a[0]] + a[1..];
  }

  lemma TailKeeps<T(!new)>(le: (T, T) -> bool, a: seq<T>)
    requires IsSorted(le, a) && a != []
    ensures IsSorted(le, a[1..])
  {
  }

  lemma TailSeparates<T(!new)>(le: (T, T) -> bool, a: seq<T>)
    requires Separates(le, a) && a != []
    ensures Separates(le, a[1..])
  {
    assert forall x :: x in a[1..] ==> x in a;
  }

  lemma SameSize<T>(a: seq<T>, b: seq<T>)
    requires multiset(a) == multiset(b)
    ensures |a| == |b|
  {
    assert |multiset(a)| == |a| && |multiset(b)| == |b|;
  }

  lemma SameMembers<T(!new)>(a: seq<T>, b: seq<T>)
    requires multiset(a) == multiset(b)
    ensures forall x :: x in a <==> x in b
  {
    forall x ensures x in a <==> x in b {
      assert x in a <==> x in multiset(a);
      assert x in b <==> x in multiset(b);
    }
  }

  // ---- Lexicographic order ---------------------------------------------------------

  predicate LexLe(a: seq<int>, b: seq<int>) {
    a == [] || (b != [] && (a[0] < b[0] || (a[0] == b[0] && LexLe(a[1..], b[1..]))))
  }

  lemma {:induction false} LexTotal(a: seq<int>, b: seq<int>)
    ensures LexLe(a, b) || LexLe(b, a)
  {
    if a != [] && b != [] {
      LexTotal(a[1..], b[1..]);
    }
  }

  lemma {:induction false} LexTransitive(a: seq<int>, b: seq<int>, c: seq<int>)
    requires LexLe(a, b) && LexLe(b, c)
    ensures LexLe(a, c)
  {
    if a != [] && a[0] == b[0] == c[0] {
      LexTransitive(a[1..], b[1..], c[1..]);
    }
  }

  lemma {:induction false} LexAntisymmetric(a: seq<int>, b: seq<int>)
    requires LexLe(a, b) && LexLe(b, a)
    ensures a == b
  {
    if a != [] && b != [] {
      LexAntisymmetric(a[1..], b[1..]);
      assert a == [a[0]] + a[1..] && b == [b[0]] + b[1..];
    }
  }

  /** Comparing by a list-valued key is an order. */
  lemma KeyOrderIsOrder<T(!new)>(key: T -> seq<int>, le: (T, T) -> bool)
    requires forall a, b :: le(a, b) <==> LexLe(key(a), key(b))
    ensures IsOrder(le)
  {
    hide LexLe;
    forall a, b ensures le(a, b) || le(b, a) {
      LexTotal(key(a), key(b));
    }
    forall a, b, c | le(a, b) && le(b, c) ensures le(a, c) {
      LexTransitive(key(a), key(b), key(c));
    }
  }
}
