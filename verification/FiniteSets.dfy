/** Lists without repetitions and cardinality facts about finite sets. */
module FiniteSets {

  predicate Distinct<T(==)>(s: seq<T>) {
    forall i, j :: 0 <= i < j < |s| ==> s[i] != s[j]
  }

  lemma AnyOf<T>(s: set<T>) returns (e: T)
    requires |s| > 0
    ensures e in s
  {
    e :| e in s;
  }

  lemma SubsetSize<T>(a: set<T>, b: set<T>)
    requires a <= b
    ensures |a| <= |b|
  {
    assert b == a + (b - a);
  }

  lemma FullSubset<T>(a: set<T>, b: set<T>)
    requires a <= b && |a| == |b|
    ensures a == b
  {
    assert b == a + (b - a);
    assert |b - a| == 0;
  }

  lemma DisjointUnionSize<T>(whole: set<T>, a: set<T>, b: set<T>)
    requires a !! b && whole == a + b
    ensures |whole| == |a| + |b|
  {
  }

  /** The naturals below n. */
  ghost function Below(n: nat): (s: set<int>)
    ensures forall i :: i in s <==> 0 <= i < n
    ensures |s| == n
  {
    if n == 0 then {} else Below(n - 1) + {n - 1}
  }

  ghost function Image<A, B>(f: A -> B, xs: set<A>): set<B> {
    set x | x in xs :: f(x)
  }

  ghost predicate InjectiveOn<A(!new), B>(f: A -> B, xs: set<A>) {
    forall x, y :: x in xs && y in xs && f(x) == f(y) ==> x == y
  }

  lemma {:induction false} ImageSize<A(!new), B>(f: A -> B, xs: set<A>)
    requires InjectiveOn(f, xs)
    ensures |Image(f, xs)| == |xs|
  {
    if |xs| == 0 {
      assert Image(f, xs) == {};
    } else {
      var x := AnyOf(xs);
      var rest := xs - {x};
      ImageSize(f, rest);
      assert Image(f, xs) == Image(f, rest) + {f(x)};
      assert f(x) !in Image(f, rest);
    }
  }

  ghost function Members<T>(s: seq<T>): set<T> {
    set x | x in s
  }

  /** A list without repetitions has as many members as places. */
  lemma {:induction false} MembersOfDistinct<T>(s: seq<T>)
    requires Distinct(s)
    ensures |Members(s)| == |s|
  {
    if s == [] {
      assert Members(s) == {};
    } else {
      var init, last := s[..|s| - 1], s[|s| - 1];
      MembersOfDistinct(init);
      assert Members(s) == Members(init) + {last} by {
        assert s == init + [last];
      }
      assert last !in init;
    }
  }

  /** The places of a list whose members satisfy p. */
  ghost function Where<T>(s: seq<T>, p: T -> bool): set<int> {
    set i | 0 <= i < |s| && p(s[i])
  }

  lemma WhereNext<T>(s: seq<T>, x: T, p: T -> bool)
    ensures |Where(s + [x], p)| == |Where(s, p)| + if p(x) then 1 else 0
  {
    if p(x) {
      assert Where(s + [x], p) == Where(s, p) + {|s|};
    } else {
      assert Where(s + [x], p) == Where(s, p);
    }
  }

  lemma DistinctLabelsFit(labels: seq<int>, m: nat)
    requires forall k :: 0 <= k < |labels| ==> 0 <= labels[k] < m
    requires Distinct(labels)
    ensures |labels| <= m
  {
    MembersOfDistinct(labels);
    SubsetSize(Members(labels), Below(m));
  }

  /** Pigeonhole: more labels than values below m repeat one. */
  lemma RepeatedLabel(labels: seq<int>, m: nat) returns (i: nat, j: nat)
    requires forall k :: 0 <= k < |labels| ==> 0 <= labels[k] < m
    requires m < |labels|
    ensures i < j < |labels| && labels[i] == labels[j]
  {
    if Distinct(labels) {
      DistinctLabelsFit(labels, m);
      assert false;
    }
    i, j :| 0 <= i < j < |labels| && labels[i] == labels[j];
  }

  lemma {:induction false} ImageNoLarger<A(!new), B(!new)>(f: A -> B, xs: set<A>)
    ensures |Image(f, xs)| <= |xs|
    decreases |xs|
  {
    if |xs| == 0 {
      assert Image(f, xs) == {};
    } else {
      var x := AnyOf(xs);
      ImageNoLarger(f, xs - {x});
      assert Image(f, xs) == Image(f, xs - {x}) + {f(x)};
    }
  }

  function Times(a: nat, b: nat): nat {
    a * b
  }

  ghost function Pairs<A(!new), B(!new)>(xs: set<A>, ys: set<B>): set<(A, B)> {
    set x, y | x in xs && y in ys :: (x, y)
  }

  ghost function Slice<A(!new), B(!new)>(x: A, ys: set<B>): set<(A, B)> {
    set y | y in ys :: (x, y)
  }

  lemma {:induction false} SliceSize<A(!new), B(!new)>(x: A, ys: set<B>)
    ensures |Slice(x, ys)| == |ys|
    decreases |ys|
  {
    if |ys| == 0 {
      assert Slice(x, ys) == {};
    } else {
      var y := AnyOf(ys);
      SliceSize(x, ys - {y});
      assert Slice(x, ys) == Slice(x, ys - {y}) + {(x, y)};
    }
  }

  lemma {:induction false} PairsSize<A(!new), B(!new)>(xs: set<A>, ys: set<B>)
    ensures |Pairs(xs, ys)| == Times(|xs|, |ys|)
    decreases |xs|
  {
    if |xs| == 0 {
      assert Pairs(xs, ys) == {};
    } else {
      var x := AnyOf(xs);
      PairsSize(xs - {x}, ys);
      var slice := Slice(x, ys);
      SliceSize(x, ys);
      assert Pairs(xs, ys) == Pairs(xs - {x}, ys) + slice;
      assert Pairs(xs - {x}, ys) !! slice;
    }
  }
}
